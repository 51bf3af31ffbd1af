/** The three fixed build-target to module tables, one per host operating
    system, selected by the value `os.type()` reports. */
module ModuleTables {
  import opened Results
  import opened Text

  type Table = map<string, string>

  const LinuxModules: Table := map[
    "StandaloneLinux64" := "linux-il2cpp",
    "Android" := "android",
    "WebGL" := "webgl",
    "iOS" := "ios"
  ]

  const DarwinModules: Table := map[
    "StandaloneOSX" := "mac-il2cpp",
    "iOS" := "ios",
    "Android" := "android",
    "tvOS" := "appletv",
    "StandaloneLinux64" := "linux-il2cpp",
    "WebGL" := "webgl",
    "VisionOS" := "visionos"
  ]

  const WindowsModules: Table := map[
    "StandaloneWindows64" := "windows-il2cpp",
    "WSAPlayer" := "universal-windows-platform",
    "Android" := "android",
    "iOS" := "ios",
    "tvOS" := "appletv",
    "StandaloneLinux64" := "linux-il2cpp",
    "Lumin" := "lumin",
    "WebGL" := "webgl"
  ]

  predicate IsSupported(osType: string) {
    osType == "Linux" || osType == "Darwin" || osType == "Windows_NT"
  }

  /** A module identifier the installer can receive in a space-separated
      list: non-empty and without whitespace. */
  predicate IsModuleId(m: string) {
    m != [] && NoSpace(m)
  }

  predicate WellFormedTable(t: Table) {
    forall k :: k in t ==> IsModuleId(t[k])
  }

  /** The table for the host, or the error that is thrown for any other
      operating system. */
  function TableFor(osType: string): (r: Result<Table, string>)
    ensures r.Success? <==> IsSupported(osType)
    ensures r.Failure? ==> r.error == osType + " not supported"
    ensures r.Success? ==> WellFormedTable(r.value)
  {
    LinuxWellFormed();
    DarwinWellFormed();
    WindowsWellFormed();
    if osType == "Linux" then Success(LinuxModules)
    else if osType == "Darwin" then Success(DarwinModules)
    else if osType == "Windows_NT" then Success(WindowsModules)
    else Failure(osType + " not supported")
  }

  /** Every module identifier the tables use. */
  lemma ModuleIds()
    ensures IsModuleId("linux-il2cpp") && IsModuleId("android") && IsModuleId("webgl")
    ensures IsModuleId("ios") && IsModuleId("mac-il2cpp") && IsModuleId("appletv")
    ensures IsModuleId("visionos") && IsModuleId("windows-il2cpp") && IsModuleId("lumin")
    ensures IsModuleId("universal-windows-platform")
  {
  }

  lemma LinuxWellFormed()
    ensures WellFormedTable(LinuxModules)
  {
    ModuleIds();
  }

  lemma DarwinWellFormed()
    ensures WellFormedTable(DarwinModules)
  {
    ModuleIds();
  }

  lemma WindowsWellFormed()
    ensures WellFormedTable(WindowsModules)
  {
    ModuleIds();
  }

  /** Sample entries of each table, and targets a table does not map. */
  lemma TableEntries()
    ensures TableFor("Windows_NT").value["StandaloneWindows64"] == "windows-il2cpp"
    ensures TableFor("Windows_NT").value["Android"] == "android"
    ensures TableFor("Windows_NT").value["WSAPlayer"] == "universal-windows-platform"
    ensures TableFor("Darwin").value["StandaloneOSX"] == "mac-il2cpp"
    ensures TableFor("Darwin").value["tvOS"] == "appletv"
    ensures TableFor("Linux").value["StandaloneLinux64"] == "linux-il2cpp"
    ensures "StandaloneWindows64" !in TableFor("Linux").value
    ensures "StandaloneOSX" !in TableFor("Windows_NT").value
    ensures "tvOS" !in TableFor("Linux").value
    ensures "" !in TableFor("Linux").value
  {
  }

  /** No table maps the empty target, which `split` produces for leading
      or trailing whitespace in the input. */
  lemma EmptyTargetUnmapped(osType: string)
    requires IsSupported(osType)
    ensures "" !in TableFor(osType).value
  {
  }
}
