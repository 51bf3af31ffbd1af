/** The `architecture` value passed to the installer (src/index.js, start
    of `main`). */
module Architecture {

  /** An explicit input wins; otherwise only a macOS host on an arm64 or x64
      processor gets a default, and every other host keeps the input as
      read (the empty string). */
  function DefaultArchitecture(input: string, osType: string, osArch: string): (r: string)
    ensures input != "" ==> r == input
    ensures r == input || (input == "" && osType == "Darwin" && r in {"arm64", "x86_64"})
    ensures r != "" <==> input != "" || (osType == "Darwin" && (osArch == "arm64" || osArch == "x64"))
    ensures input == "" && osType == "Darwin" && osArch == "x64" ==> r == "x86_64"
    ensures input == "" && osType == "Darwin" && osArch == "arm64" ==> r == "arm64"
  {
    if input != "" then input
    else if osType == "Darwin" then
      if osArch == "arm64" then "arm64"
      else if osArch == "x64" then "x86_64"
      else input
    else input
  }

  /** The names the installer uses for the processors `os.arch()` reports
      on macOS. */
  const DarwinArchitectures: map<string, string> := map["arm64" := "arm64", "x64" := "x86_64"]

  /** An independent reference for DefaultArchitecture. The nested `if`s
      of `main` are a two-entry translation table from `os.arch()` names to
      installer names, applied only on macOS and only when no input is
      given. This lemma states that reading directly: the input when given,
      else the macOS table entry for a known processor, else the empty
      string. So a processor outside DarwinArchitectures never gets a
      default. */
  lemma DefaultArchitectureByTable(input: string, osType: string, osArch: string)
    ensures DefaultArchitecture(input, osType, osArch) ==
      if input != "" then input
      else if osType == "Darwin" && osArch in DarwinArchitectures then DarwinArchitectures[osArch]
      else ""
  {
  }
}
