/** Resolution of the `build-targets` input into the installer's module
    list (src/index.js, the `else` branch of `if (!buildTargets)`). */
module BuildTargets {
  import opened Results
  import opened Text
  import opened ModuleTables

  /** `input.replace(/,/g, '').split(/\s+/)`: commas are deleted, not
      treated as separators, and the rest is cut at whitespace runs. */
  function Tokenize(input: string): (r: seq<string>)
    ensures |r| >= 1
    ensures forall i :: 0 <= i < |r| ==> NoSpace(r[i]) && ',' !in r[i]
    ensures forall i :: 0 < i < |r| - 1 ==> r[i] != []
    ensures input != [] && IsSpace(input[0]) ==> r[0] == []
    ensures input != [] && !IsSpace(input[0]) && input[0] != ',' ==> r[0] != []
    ensures input != [] && IsSpace(input[|input| - 1]) ==> |r| >= 2 && r[|r| - 1] == []
  {
    var cleaned := RemoveCommas(input);
    assert input != [] && input[0] != ',' ==> cleaned != [] && cleaned[0] == input[0];
    assert input != [] && input[|input| - 1] != ',' ==>
        cleaned != [] && cleaned[|cleaned| - 1] == input[|input| - 1] by {
      if input != [] && input[|input| - 1] != ',' {
        var n := |input| - 1;
        assert input == input[..n] + [input[n]];
        RemoveCommasAppend(input[..n], [input[n]]);
        assert [input[n]][1..] == [];
      }
    }
    var r := Split(cleaned);
    assert forall i :: 0 <= i < |r| ==> ',' !in r[i] by {
      SplitChars(cleaned);
      forall i | 0 <= i < |r|
        ensures ',' !in r[i]
      {
        assert ',' !in cleaned;
      }
    }
    r
  }

  /** Tokenizing a list of comma-free words joined by single spaces gives
      back the words. */
  lemma TokenizeJoin(ts: seq<string>)
    requires |ts| >= 1
    requires forall i :: 0 <= i < |ts| ==> ts[i] != [] && NoSpace(ts[i]) && ',' !in ts[i]
    ensures Tokenize(Join(ts, " ")) == ts
  {
    var joined := Join(ts, " ");
    assert RemoveCommas(joined) == joined by {
      JoinChars(ts, " ");
      assert ',' !in joined;
    }
    assert Split(joined) == ts by {
      SplitJoin(ts);
    }
  }

  /** Between two comma-free words, any run of whitespace (tabs, newlines,
      several spaces) separates tokens exactly as one space does. */
  lemma TokenizeRun(a: string, ws: string, b: string)
    requires ws != [] && forall i :: 0 <= i < |ws| ==> IsSpace(ws[i])
    requires a == [] || !IsSpace(a[|a| - 1])
    requires b == [] || !IsSpace(b[0])
    requires ',' !in a && ',' !in b
    ensures Tokenize(a + ws + b) == Tokenize(a + " " + b)
  {
    assert ',' !in a + ws + b;
    assert ',' !in a + " " + b;
    SplitRun(a, ws, b);
  }

  /** Two targets separated by a tab are two tokens. */
  lemma TabSeparatedTargets(a: string, b: string)
    requires a != [] && NoSpace(a) && ',' !in a
    requires b != [] && NoSpace(b) && ',' !in b
    ensures Tokenize(a + "\t" + b) == [a, b]
  {
    assert IsSpace("\t"[0]);
    TokenizeRun(a, "\t", b);
    assert Join([a, b], " ") == a + " " + b by {
      assert [a, b][1..] == [b];
    }
    TokenizeJoin([a, b]);
  }

  /** Inserting a comma anywhere in the input does not change its tokens. */
  lemma TokenizeIgnoresCommas(a: string, b: string)
    ensures Tokenize(a + "," + b) == Tokenize(a + b)
  {
    assert RemoveCommas(",") == [] by {
      assert ","[1..] == [];
    }
    RemoveCommasAppend(a + ",", b);
    RemoveCommasAppend(a, ",");
    RemoveCommasAppend(a, b);
    calc {
      RemoveCommas(a + "," + b);
      RemoveCommas(a + ",") + RemoveCommas(b);
      RemoveCommas(a) + RemoveCommas(",") + RemoveCommas(b);
      { assert RemoveCommas(a) + [] == RemoveCommas(a); }
      RemoveCommas(a) + RemoveCommas(b);
      RemoveCommas(a + b);
    }
  }

  /** The warning emitted for a target the active table does not map; it
      opens with the target, so the target can be read back from it. */
  function Warning(target: string): (r: string)
    ensures |r| > |target| && r[..|target|] == target
  {
    target + " not a valid build-target"
  }

  /** Different targets never share a warning. */
  lemma WarningInjective(a: string, b: string)
    requires Warning(a) == Warning(b)
    ensures a == b
  {
    assert |Warning(a)| == |a| + |" not a valid build-target"|;
    assert |Warning(b)| == |b| + |" not a valid build-target"|;
  }

  /** The modules of the mapped targets, in input order, duplicates kept:
      at most one per target, each one a module of the table. */
  function Mapped(table: Table, targets: seq<string>): (r: seq<string>)
    ensures |r| <= |targets|
    ensures forall i :: 0 <= i < |r| ==> r[i] in table.Values
  {
    if targets == [] then []
    else
      var last := targets[|targets| - 1];
      Mapped(table, targets[..|targets| - 1]) + (if last in table then [table[last]] else [])
  }

  /** One warning per unmapped target, in input order: every target yields
      exactly one module or one warning. */
  function Warnings(table: Table, targets: seq<string>): (r: seq<string>)
    ensures |r| + |Mapped(table, targets)| == |targets|
  {
    if targets == [] then []
    else
      var last := targets[|targets| - 1];
      Warnings(table, targets[..|targets| - 1]) + (if last in table then [] else [Warning(last)])
  }

  /** Resolution distributes over concatenation of the target list. */
  lemma {:induction false} ResolveAppend(table: Table, a: seq<string>, b: seq<string>)
    ensures Mapped(table, a + b) == Mapped(table, a) + Mapped(table, b)
    ensures Warnings(table, a + b) == Warnings(table, a) + Warnings(table, b)
    decreases |b|
  {
    if b == [] {
      assert a + b == a;
    } else {
      var b' := b[..|b| - 1];
      assert (a + b)[..|a + b| - 1] == a + b';
      assert (a + b)[|a + b| - 1] == b[|b| - 1];
      ResolveAppend(table, a, b');
    }
  }

  /** A single target contributes its module or its warning, never both. */
  lemma ResolveOne(table: Table, t: string)
    ensures t in table ==> Mapped(table, [t]) == [table[t]] && Warnings(table, [t]) == []
    ensures t !in table ==> Mapped(table, [t]) == [] && Warnings(table, [t]) == [Warning(t)]
  {
    assert [t][..0] == [];
  }

  /** A module appears in the result exactly when some target maps to it. */
  lemma {:induction false} MappedContents(table: Table, targets: seq<string>, m: string)
    ensures m in Mapped(table, targets) <==>
            exists i :: 0 <= i < |targets| && targets[i] in table && table[targets[i]] == m
  {
    if targets != [] {
      var n := |targets| - 1;
      var init := targets[..n];
      MappedContents(table, init, m);
      if exists i :: 0 <= i < |init| && init[i] in table && table[init[i]] == m {
        var i :| 0 <= i < |init| && init[i] in table && table[init[i]] == m;
        assert targets[i] == init[i];
      }
      if exists i :: 0 <= i < |targets| && targets[i] in table && table[targets[i]] == m {
        var i :| 0 <= i < |targets| && targets[i] in table && table[targets[i]] == m;
        if i < n {
          assert init[i] == targets[i];
        }
      }
    }
  }

  /** When the table maps every target, the modules are the targets' images
      position by position. */
  lemma {:induction false} MappedAll(table: Table, targets: seq<string>)
    requires forall i :: 0 <= i < |targets| ==> targets[i] in table
    ensures |Mapped(table, targets)| == |targets|
    ensures forall i :: 0 <= i < |targets| ==> Mapped(table, targets)[i] == table[targets[i]]
    ensures Warnings(table, targets) == []
  {
    if targets != [] {
      var init := targets[..|targets| - 1];
      MappedAll(table, init);
    }
  }

  /** When the table maps no target, there are no modules and one warning
      per target. */
  lemma {:induction false} MappedNone(table: Table, targets: seq<string>)
    requires forall i :: 0 <= i < |targets| ==> targets[i] !in table
    ensures Mapped(table, targets) == []
    ensures |Warnings(table, targets)| == |targets|
    ensures forall i :: 0 <= i < |targets| ==> Warnings(table, targets)[i] == Warning(targets[i])
  {
    if targets != [] {
      var init := targets[..|targets| - 1];
      MappedNone(table, init);
    }
  }

  /** Whitespace at the start of the input becomes an empty first target,
      which no table maps: on every supported host the first warning is the
      one for the empty target. */
  lemma LeadingSpaceWarning(osType: string, input: string)
    requires IsSupported(osType)
    requires input != [] && IsSpace(input[0])
    ensures var ws := Warnings(TableFor(osType).value, Tokenize(input));
      ws != [] && ws[0] == Warning("")
  {
    var table := TableFor(osType).value;
    var targets := Tokenize(input);
    EmptyTargetUnmapped(osType);
    assert targets == [targets[0]] + targets[1..];
    ResolveAppend(table, [targets[0]], targets[1..]);
    ResolveOne(table, targets[0]);
  }

  /** Whitespace at the end of the input becomes an empty last target: on
      every supported host the last warning is the one for the empty
      target. */
  lemma TrailingSpaceWarning(osType: string, input: string)
    requires IsSupported(osType)
    requires input != [] && IsSpace(input[|input| - 1])
    ensures var ws := Warnings(TableFor(osType).value, Tokenize(input));
      ws != [] && ws[|ws| - 1] == Warning("")
  {
    var table := TableFor(osType).value;
    var targets := Tokenize(input);
    var n := |targets| - 1;
    EmptyTargetUnmapped(osType);
    assert targets == targets[..n] + [targets[n]];
    ResolveAppend(table, targets[..n], [targets[n]]);
    ResolveOne(table, targets[n]);
  }

  /** What the target loop produces: the module string and the warnings. */
  datatype Resolution = Resolution(modules: string, warnings: seq<string>)

  /** Extending the target list by one target extends the modules or the
      warnings by that target's contribution. */
  lemma ResolveStep(table: Table, targets: seq<string>, i: nat)
    requires i < |targets|
    ensures var t := targets[i];
      && Mapped(table, targets[..i + 1]) == Mapped(table, targets[..i]) + (if t in table then [table[t]] else [])
      && Warnings(table, targets[..i + 1]) == Warnings(table, targets[..i]) + (if t in table then [] else [Warning(t)])
  {
    assert targets[..i + 1][..i] == targets[..i];
    assert targets[..i + 1][i] == targets[i];
  }

  /** The loop of `main` over the targets: each mapped module is appended
      followed by one space, each unmapped target is warned about. */
  method AppendModules(table: Table, targets: seq<string>) returns (modules: string, warnings: seq<string>)
    ensures Mapped(table, targets) == [] ==> modules == ""
    ensures Mapped(table, targets) != [] ==> modules == Join(Mapped(table, targets), " ") + " "
    ensures warnings == Warnings(table, targets)
  {
    modules := "";
    warnings := [];
    for i := 0 to |targets|
      invariant Mapped(table, targets[..i]) == [] ==> modules == ""
      invariant Mapped(table, targets[..i]) != [] ==> modules == Join(Mapped(table, targets[..i]), " ") + " "
      invariant warnings == Warnings(table, targets[..i])
    {
      var target := targets[i];
      ResolveStep(table, targets, i);
      if target !in table {
        assert Mapped(table, targets[..i]) + [] == Mapped(table, targets[..i]);
        warnings := warnings + [Warning(target)];
        continue;
      }
      var moduleId := table[target];
      var before := Mapped(table, targets[..i]);
      if before != [] {
        JoinSnoc(before, moduleId, " ");
        assert modules + moduleId + " " == Join(before + [moduleId], " ") + " ";
      } else {
        assert before + [moduleId] == [moduleId];
        assert Join([moduleId], " ") == moduleId;
        assert modules + moduleId + " " == Join(before + [moduleId], " ") + " ";
      }
      modules := modules + moduleId + " ";
    }
    assert targets[..|targets|] == targets;
  }

  /** The build-target branch of `main`: select the host's table (or fail),
      tokenize the input, run the target loop and trim its output. */
  method ResolveBuildTargets(osType: string, buildTargets: string) returns (r: Result<Resolution, string>)
    ensures !IsSupported(osType) ==> r == Failure(osType + " not supported")
    ensures IsSupported(osType) ==> r.Success?
    ensures r.Success? ==>
      var targets := Tokenize(buildTargets);
      var table := TableFor(osType).value;
      && r.value.modules == Join(Mapped(table, targets), " ")
      && r.value.warnings == Warnings(table, targets)
  {
    var selected := TableFor(osType);
    if selected.Failure? {
      return Failure(selected.error);
    }
    var table := selected.value;
    var targets := Tokenize(buildTargets);
    var modules, warnings := AppendModules(table, targets);
    var mapped := Mapped(table, targets);
    if mapped != [] {
      MappedWellFormed(table, targets);
      TrimTrailingSpace(mapped);
    }
    modules := Trim(modules);
    return Success(Resolution(modules, warnings));
  }

  /** Every resolved module comes from the table. */
  lemma {:induction false} MappedWellFormed(table: Table, targets: seq<string>)
    requires WellFormedTable(table)
    ensures forall i :: 0 <= i < |Mapped(table, targets)| ==> IsModuleId(Mapped(table, targets)[i])
  {
    if targets != [] {
      MappedWellFormed(table, targets[..|targets| - 1]);
    }
  }

  /** The module string names exactly the mapped modules: it has no
      whitespace at either end and splits back into the module list. */
  lemma ModuleStringRoundTrip(table: Table, targets: seq<string>)
    requires WellFormedTable(table)
    requires Mapped(table, targets) != []
    ensures var s := Join(Mapped(table, targets), " ");
      && s != [] && !IsSpace(s[0]) && !IsSpace(s[|s| - 1])
      && Split(s) == Mapped(table, targets)
  {
    var ms := Mapped(table, targets);
    MappedWellFormed(table, targets);
    JoinEnds(ms);
    SplitJoin(ms);
  }

  /** Build targets "StandaloneWindows64 Android" on Windows. */
  lemma WindowsScenario()
    ensures Tokenize("StandaloneWindows64 Android") == ["StandaloneWindows64", "Android"]
    ensures Mapped(TableFor("Windows_NT").value, ["StandaloneWindows64", "Android"]) == ["windows-il2cpp", "android"]
    ensures Warnings(TableFor("Windows_NT").value, ["StandaloneWindows64", "Android"]) == []
  {
    assert Tokenize("StandaloneWindows64 Android") == ["StandaloneWindows64", "Android"] by {
      WindowsTokens();
    }
    assert TableFor("Windows_NT").value == WindowsModules;
    assert Mapped(WindowsModules, ["StandaloneWindows64", "Android"]) == ["windows-il2cpp", "android"]
        && Warnings(WindowsModules, ["StandaloneWindows64", "Android"]) == [] by {
      WindowsResolution();
    }
  }

  lemma WindowsTokens()
    ensures Tokenize("StandaloneWindows64 Android") == ["StandaloneWindows64", "Android"]
  {
    var ts := ["StandaloneWindows64", "Android"];
    assert Join(ts, " ") == "StandaloneWindows64 Android" by {
      assert ts[1..] == ["Android"];
      assert Join(ts[1..], " ") == "Android";
    }
    TokenizeJoin(ts);
  }

  lemma WindowsResolution()
    ensures Mapped(WindowsModules, ["StandaloneWindows64", "Android"]) == ["windows-il2cpp", "android"]
    ensures Warnings(WindowsModules, ["StandaloneWindows64", "Android"]) == []
  {
    var ts := ["StandaloneWindows64", "Android"];
    TableEntries();
    ResolveOne(WindowsModules, ts[0]);
    ResolveOne(WindowsModules, ts[1]);
    ResolveAppend(WindowsModules, [ts[0]], [ts[1]]);
    assert [ts[0]] + [ts[1]] == ts;
  }

  /** An unknown target on Linux resolves to nothing and one warning. */
  lemma UnknownTargetScenario()
    ensures Tokenize("Foo") == ["Foo"]
    ensures Mapped(TableFor("Linux").value, ["Foo"]) == []
    ensures Warnings(TableFor("Linux").value, ["Foo"]) == [Warning("Foo")]
  {
    TokenizeJoin(["Foo"]);
    UnknownTargetResolution();
  }

  lemma UnknownTargetResolution()
    ensures Mapped(LinuxModules, ["Foo"]) == []
    ensures Warnings(LinuxModules, ["Foo"]) == [Warning("Foo")]
  {
    assert "Foo" !in LinuxModules;
    ResolveOne(LinuxModules, "Foo");
  }

  /** "A,B" is the single target "AB". */
  lemma CommaScenario()
    ensures Tokenize("A,B") == ["AB"]
  {
    assert "A" + "," + "B" == "A,B";
    TokenizeIgnoresCommas("A", "B");
    assert "A" + "B" == "AB";
    TokenizeJoin(["AB"]);
  }
}
