/**
 * Platform helpers: where the configuration folder is, how a flag is shown,
 * and which text editor to start.
 *
 * The environment is passed in: the home directory, the APPDATA variable,
 * the EDITOR variable, and the lookup of a program on the search path.
 */
module Utils {
  import opened Wrappers

  /** A path as its components. */
  type Path = seq<string>

  const AppFolder := "where-is"

  // ---------------------------------------------------------------------
  // The configuration folder.
  // ---------------------------------------------------------------------

  function LinuxFolder(home: Path): Path {
    home + [".config", AppFolder]
  }

  function MacFolder(home: Path): Path {
    home + ["Library", "Preferences", AppFolder]
  }

  /**
   * str() of the APPDATA lookup: an unset variable becomes the text "None".
   * An empty value is the current directory, which adds no component.
   */
  function WindowsFolder(appdata: Option<string>): Path {
    match appdata
    case None => ["None", AppFolder]
    case Some(dir) => if dir == "" then [AppFolder] else [dir, AppFolder]
  }

  /**
   * The configuration folder for the name the platform reports, as written:
   * a table keyed "Linux", "Mac" and "Windows", with the Linux folder for any
   * other name.
   */
  function ConfigFolder(system: string, home: Path, appdata: Option<string>): (p: Path)
    ensures |p| >= 1 && p[|p| - 1] == AppFolder
    ensures system !in {"Linux", "Mac", "Windows"} ==> p == LinuxFolder(home)
  {
    if system == "Mac" then MacFolder(home)
    else if system == "Windows" then WindowsFolder(appdata)
    else LinuxFolder(home)
  }

  /** The three keyed platforms get their own folders; every other name gets the Linux one. */
  lemma ConfigFolderTable(system: string, home: Path, appdata: Option<string>)
    ensures ConfigFolder("Linux", home, appdata) == home + [".config", "where-is"]
    ensures ConfigFolder("Mac", home, appdata) == home + ["Library", "Preferences", "where-is"]
    ensures ConfigFolder("Windows", home, None) == ["None", "where-is"]
    ensures forall dir :: dir != "" ==> ConfigFolder("Windows", home, Some(dir)) == [dir, "where-is"]
    ensures ConfigFolder("Windows", home, Some("")) == ["where-is"]
    ensures system != "Mac" && system != "Windows" ==> ConfigFolder(system, home, appdata) == LinuxFolder(home)
  {
  }

  /**
   * On macOS the platform reports "Darwin", which is not a key of the table,
   * so the folder chosen there is the Linux one, not Library/Preferences.
   */
  lemma DarwinGetsLinuxFolder(home: Path, appdata: Option<string>)
    ensures ConfigFolder("Darwin", home, appdata) == home + [".config", "where-is"]
    ensures ConfigFolder("Darwin", home, appdata) != home + ["Library", "Preferences", "where-is"]
  {
    var p := ConfigFolder("Darwin", home, appdata);
    assert p[|home|] == ".config";
  }

  /** The configuration folder with macOS recognised under the name the platform reports. */
  function ConfigFolderCorrected(system: string, home: Path, appdata: Option<string>): (p: Path)
    ensures |p| >= 1 && p[|p| - 1] == AppFolder
    ensures system == "Darwin" ==> p == home + ["Library", "Preferences", "where-is"]
    ensures system != "Darwin" ==> p == ConfigFolder(system, home, appdata)
  {
    if system == "Darwin" then MacFolder(home) else ConfigFolder(system, home, appdata)
  }

  // ---------------------------------------------------------------------
  // Showing a flag.
  // ---------------------------------------------------------------------

  /** How Python writes a boolean. */
  function BoolText(b: bool): string {
    if b then "True" else "False"
  }

  /** A boolean marked up green and italic when true, red and italic when false. */
  function FormatBool(b: bool): (r: string)
    ensures b ==> r == "[green4 italic]" + BoolText(b)
    ensures !b ==> r == "[red italic]" + BoolText(b)
  {
    if b then "[green4 italic]True" else "[red italic]False"
  }

  /** The two texts differ, so the flag can be read back from what is shown. */
  lemma FormatBoolInjective(a: bool, b: bool)
    ensures FormatBool(a) == FormatBool(b) <==> a == b
  {
    if a != b {
      assert FormatBool(a)[1] != FormatBool(b)[1];
    }
  }

  // ---------------------------------------------------------------------
  // Choosing a text editor.
  // ---------------------------------------------------------------------

  /** The programs tried after $EDITOR, in order. */
  const KnownEditors: seq<string> :=
    ["micro", "nano", "vim", "emacs", "vi", "subl", "vscode", "kate", "geany", "gedit",
     "notepad++.exe", "notepad.exe", "ed"]

  /** $EDITOR first (the empty name when unset), then the known editors. */
  function EditorCandidates(editor: Option<string>): (cs: seq<string>)
    ensures |cs| == |KnownEditors| + 1 && cs[1..] == KnownEditors
    ensures cs[0] == match editor case None => "" case Some(name) => name
  {
    [match editor case None => "" case Some(name) => name] + KnownEditors
  }

  /** A lookup counts only when it found a non-empty path. */
  predicate Found(r: Option<string>) {
    r.Some? && r.value != ""
  }

  /** The lookup result of the first candidate the lookup finds. */
  function FirstFound(cs: seq<string>, which: string -> Option<string>): (r: Option<string>)
    decreases |cs|
  {
    if |cs| == 0 then None
    else if Found(which(cs[0])) then which(cs[0])
    else FirstFound(cs[1..], which)
  }

  /**
   * FirstFound finds something exactly when some candidate is found, and then
   * it is the lookup of the earliest such candidate.
   */
  lemma {:induction false} FirstFoundIsFirst(cs: seq<string>, which: string -> Option<string>)
    ensures FirstFound(cs, which).Some? <==> exists i :: 0 <= i < |cs| && Found(which(cs[i]))
    ensures FirstFound(cs, which).Some? ==>
              exists i :: 0 <= i < |cs| && which(cs[i]) == FirstFound(cs, which) && Found(which(cs[i])) &&
                          forall j :: 0 <= j < i ==> !Found(which(cs[j]))
    decreases |cs|
  {
    if |cs| > 0 && !Found(which(cs[0])) {
      FirstFoundIsFirst(cs[1..], which);
      if exists i :: 0 <= i < |cs| && Found(which(cs[i])) {
        var i :| 0 <= i < |cs| && Found(which(cs[i]));
        assert cs[1..][i - 1] == cs[i];
      }
      if FirstFound(cs, which).Some? {
        var i :| 0 <= i < |cs[1..]| && which(cs[1..][i]) == FirstFound(cs, which) && Found(which(cs[1..][i])) &&
                 forall j :: 0 <= j < i ==> !Found(which(cs[1..][j]));
        assert cs[1..][i] == cs[i + 1];
        forall j | 0 <= j < i + 1 ensures !Found(which(cs[j])) {
          if j > 0 {
            assert cs[1..][j - 1] == cs[j];
          }
        }
      }
    }
  }

  /** The text editor to start: the first candidate found on the search path, if any. */
  method GetTextEditor(editor: Option<string>, which: string -> Option<string>) returns (r: Option<string>)
    ensures r == FirstFound(EditorCandidates(editor), which)
  {
    var candidates := EditorCandidates(editor);
    for i := 0 to |candidates|
      invariant FirstFound(candidates, which) == FirstFound(candidates[i..], which)
    {
      var found := which(candidates[i]);
      if Found(found) {
        return found;
      }
      assert candidates[i..][1..] == candidates[i + 1..];
    }
    assert candidates[|candidates|..] == [];
    return None;
  }
}
