/**
 * The aria2 set-up of `downloader.py`: the machine code of the running
 * platform, the table of bundled aria2 binaries, the install check, the
 * decision of `setup_aria`, and the aria2 command arguments.
 */
module Downloader {
  import opened Wrappers
  import Strings

  predicate StartsWith(s: string, p: string)
  {
    |p| <= |s| && s[..|p|] == p
  }

  predicate EndsWith(s: string, p: string)
  {
    |p| <= |s| && s[|s| - |p|..] == p
  }

  /** `get_machine_code()` for `sys.platform` and `platform.machine()`, the tests taken in order. */
  function MachineCode(platform: string, machine: string): string
  {
    if platform == "darwin" then "macOS"
    else if platform == "win32" && EndsWith(machine, "86") then "win32"
    else if platform == "win32" && EndsWith(machine, "64") then "win64"
    else if StartsWith(platform, "linux") && EndsWith(machine, "86") then "linux32"
    else if StartsWith(platform, "linux") && EndsWith(machine, "64") then "linux64"
    else ""
  }

  /** The entries of `aria_clients()`: where the binary goes and the archive it comes in. */
  datatype Client = Client(targetPath: string, binArchive: string)

  /** `get_path(path)`: the path under the installation prefix (`sys._MEIPASS` when frozen, the module's directory otherwise). */
  function GetPath(prefix: string, path: string): string
  {
    Strings.PathJoin(prefix, path)
  }

  const ClientKeys: set<string> := {"darwin", "linux32", "linux64", "win32", "win64"}

  /** The archive directory of each key: the key itself, but `macOS` for `darwin`. */
  function ArchiveDir(key: string): string
  {
    if key == "darwin" then "macOS" else key
  }

  function BinaryName(key: string): string
  {
    if key == "win32" || key == "win64" then "bin/aria2c.exe" else "bin/aria2c"
  }

  /** `aria_clients()`. */
  function AriaClients(prefix: string): map<string, Client>
  {
    map[
      "darwin" := Client(GetPath(prefix, "bin/aria2c"), GetPath(prefix, "bin/macOS/aria2c.zip")),
      "linux32" := Client(GetPath(prefix, "bin/aria2c"), GetPath(prefix, "bin/linux32/aria2c.zip")),
      "linux64" := Client(GetPath(prefix, "bin/aria2c"), GetPath(prefix, "bin/linux64/aria2c.zip")),
      "win32" := Client(GetPath(prefix, "bin/aria2c.exe"), GetPath(prefix, "bin/win32/aria2c.zip")),
      "win64" := Client(GetPath(prefix, "bin/aria2c.exe"), GetPath(prefix, "bin/win64/aria2c.zip"))
    ]
  }

  /** The entry of a key, written by its parts. */
  function Entry(prefix: string, key: string): Client
  {
    Client(GetPath(prefix, BinaryName(key)), GetPath(prefix, "bin/" + ArchiveDir(key) + "/aria2c.zip"))
  }

  /** The table has exactly the five keys. */
  lemma AriaClientsKeys(prefix: string)
    ensures AriaClients(prefix).Keys == ClientKeys
  {
  }

  /** Each key of the table holds the entry `Entry` writes for it; `darwin`'s archive sits in `macOS`. */
  lemma DarwinEntry(prefix: string)
    ensures AriaClients(prefix)["darwin"] == Entry(prefix, "darwin")
  {
    assert "bin/" + ArchiveDir("darwin") + "/aria2c.zip" == "bin/macOS/aria2c.zip";
  }

  lemma Linux32Entry(prefix: string)
    ensures AriaClients(prefix)["linux32"] == Entry(prefix, "linux32")
  {
    assert "bin/" + ArchiveDir("linux32") + "/aria2c.zip" == "bin/linux32/aria2c.zip";
  }

  lemma Linux64Entry(prefix: string)
    ensures AriaClients(prefix)["linux64"] == Entry(prefix, "linux64")
  {
    assert "bin/" + ArchiveDir("linux64") + "/aria2c.zip" == "bin/linux64/aria2c.zip";
  }

  lemma Win32Entry(prefix: string)
    ensures AriaClients(prefix)["win32"] == Entry(prefix, "win32")
  {
    assert "bin/" + ArchiveDir("win32") + "/aria2c.zip" == "bin/win32/aria2c.zip";
  }

  lemma Win64Entry(prefix: string)
    ensures AriaClients(prefix)["win64"] == Entry(prefix, "win64")
  {
    assert "bin/" + ArchiveDir("win64") + "/aria2c.zip" == "bin/win64/aria2c.zip";
  }

  /** The Windows binaries end in `aria2c.exe`, the others in `aria2c`. */
  lemma BinarySuffix(prefix: string, key: string)
    ensures var t := GetPath(prefix, BinaryName(key));
            (EndsWith(t, "aria2c.exe") <==> key == "win32" || key == "win64")
            && (key != "win32" && key != "win64" ==> EndsWith(t, "aria2c"))
  {
    var bin, exe := "bin/aria2c", "bin/aria2c.exe";
    var t := GetPath(prefix, BinaryName(key));
    Strings.PathJoinSuffix(prefix, BinaryName(key));
    if key == "win32" || key == "win64" {
      assert t[|t| - 10..] == exe[4..];
    } else {
      assert t[|t| - 6..] == bin[4..];
      assert t[|t| - 4] == bin[6];
    }
  }

  /** The Windows binaries of the table end in `aria2c.exe`; the others end in `aria2c`, not in `aria2c.exe`. */
  lemma AriaClientsTargets(prefix: string)
    ensures var c := AriaClients(prefix);
            EndsWith(c["win32"].targetPath, "aria2c.exe") && EndsWith(c["win64"].targetPath, "aria2c.exe")
            && EndsWith(c["darwin"].targetPath, "aria2c") && !EndsWith(c["darwin"].targetPath, "aria2c.exe")
            && EndsWith(c["linux32"].targetPath, "aria2c") && !EndsWith(c["linux32"].targetPath, "aria2c.exe")
            && EndsWith(c["linux64"].targetPath, "aria2c") && !EndsWith(c["linux64"].targetPath, "aria2c.exe")
  {
    DarwinEntry(prefix);
    Linux32Entry(prefix);
    Linux64Entry(prefix);
    Win32Entry(prefix);
    Win64Entry(prefix);
    BinarySuffix(prefix, "darwin");
    BinarySuffix(prefix, "linux32");
    BinarySuffix(prefix, "linux64");
    BinarySuffix(prefix, "win32");
    BinarySuffix(prefix, "win64");
  }

  /** `aria_clients()[code]`, which raises a `KeyError` for a code that is not a key. */
  function Lookup(prefix: string, code: string): (r: Result<Client>)
    ensures r.Ok? <==> code in ClientKeys
    ensures r.Raised? ==> r.exception == "KeyError"
  {
    var clients := AriaClients(prefix);
    if code in clients then Ok(clients[code]) else Raised("KeyError")
  }

  /** The code names a key of the table exactly for Windows and Linux on a machine ending in `86` or `64`. */
  lemma MachineCodeKeys(platform: string, machine: string)
    ensures var code := MachineCode(platform, machine);
            (code in ClientKeys <==>
              platform != "darwin" && (platform == "win32" || StartsWith(platform, "linux"))
              && (EndsWith(machine, "86") || EndsWith(machine, "64")))
            && (code == "macOS" <==> platform == "darwin")
  {
    assert "macOS" !in ClientKeys;
    assert "" !in ClientKeys;
    assert StartsWith(platform, "linux") ==> platform != "win32" && platform != "darwin" by {
      if StartsWith(platform, "linux") {
        assert platform[0] == 'l';
      }
    }
  }

  /** `check_aria_install()` as written: the binary's existence, looked up under the machine code itself. */
  function CheckAriaInstall(prefix: string, platform: string, machine: string, present: string -> bool): Result<bool>
  {
    match Lookup(prefix, MachineCode(platform, machine))
    case Ok(c) => Ok(present(c.targetPath))
    case Raised(e) => Raised(e)
  }

  /** As written, the check on macOS fails with a `KeyError`: the code is `macOS`, the key `darwin`. */
  lemma MacCheckRaises(prefix: string, machine: string, present: string -> bool)
    ensures CheckAriaInstall(prefix, "darwin", machine, present) == Raised("KeyError")
  {
    assert "macOS" !in ClientKeys;
  }

  /** The key of the table for a machine code: `macOS` has its entry under `darwin`. */
  function ClientKey(code: string): string
  {
    if code == "macOS" then "darwin" else code
  }

  /** The install check as intended: the macOS binary looked up under `darwin`. */
  function CheckAriaInstallFixed(prefix: string, platform: string, machine: string, present: string -> bool): Result<bool>
  {
    match Lookup(prefix, ClientKey(MachineCode(platform, machine)))
    case Ok(c) => Ok(present(c.targetPath))
    case Raised(e) => Raised(e)
  }

  /**
   * The intended check raises only for a platform without a machine code,
   * and otherwise reports whether the binary of the platform's entry exists,
   * `bin/aria2c` on macOS.
   */
  lemma FixedCheckFindsBinary(prefix: string, platform: string, machine: string, present: string -> bool)
    ensures var code := MachineCode(platform, machine);
            var r := CheckAriaInstallFixed(prefix, platform, machine, present);
            (r.Raised? <==> code == "")
            && (r.Ok? ==> r.value == present(AriaClients(prefix)[ClientKey(code)].targetPath))
            && (platform == "darwin" ==> r == Ok(present(GetPath(prefix, "bin/aria2c"))))
  {
    MachineCodeKeys(platform, machine);
    assert "" !in ClientKeys;
  }

  /**
   * The decision of `setup_aria()`, looking the entry up as the intended
   * check does: the archive must exist, the path `archive.extract` returns
   * (or the exception it raises) is `extracted`, and `extractedPresent` says
   * whether that path exists afterwards.
   */
  function SetupAria(prefix: string, platform: string, machine: string, present: string -> bool,
                     extracted: Result<string>, extractedPresent: bool): Result<bool>
  {
    match Lookup(prefix, ClientKey(MachineCode(platform, machine)))
    case Raised(e) => Raised(e)
    case Ok(c) =>
      if !present(c.binArchive) then Ok(false)
      else
        match extracted
        case Raised(e) => Raised(e)
        case Ok(path) => Ok(path == c.targetPath && extractedPresent)
  }

  /** Set-up succeeds exactly when the archive exists and the binary is extracted to its target, which then exists. */
  lemma SetupAriaSucceeds(prefix: string, platform: string, machine: string, present: string -> bool,
                          extracted: Result<string>, extractedPresent: bool)
    ensures var r := SetupAria(prefix, platform, machine, present, extracted, extractedPresent);
            var code := ClientKey(MachineCode(platform, machine));
            r == Ok(true) <==>
              code in ClientKeys && present(AriaClients(prefix)[code].binArchive)
              && extracted == Ok(AriaClients(prefix)[code].targetPath) && extractedPresent
  {
  }

  /** Without the archive nothing is extracted and set-up reports failure. */
  lemma MissingArchiveFails(prefix: string, platform: string, machine: string, present: string -> bool,
                            extracted: Result<string>, extractedPresent: bool)
    requires MachineCode(platform, machine) != ""
    requires !present(AriaClients(prefix)[ClientKey(MachineCode(platform, machine))].binArchive)
    ensures SetupAria(prefix, platform, machine, present, extracted, extractedPresent) == Ok(false)
  {
  }

  /** `'-x 6 -d %s %s' % (download_path, download_link)`. */
  function Aria2Args(path: string, link: string): string
  {
    "-x 6 -d " + path + " " + link
  }

  /** The characters `shlex.split` treats specially in POSIX mode: whitespace, quotes and the backslash. */
  const ArgBreaks: set<char> := {' ', '\t', '\n', '\r', '"', '\'', '\\'}

  /** An argument `shlex.split` keeps as one word, which `setArguments` then passes on: non-empty, without any of `ArgBreaks`. */
  predicate PlainArg(s: string)
  {
    |s| > 0 && forall k :: 0 <= k < |s| ==> s[k] !in ArgBreaks
  }

  /** The argument text splits back into `-x 6 -d`, the path and the link when both are plain words. */
  lemma Aria2ArgsSplit(path: string, link: string)
    requires PlainArg(path) && PlainArg(link)
    ensures Strings.Split(Aria2Args(path, link), ' ') == ["-x", "6", "-d", path, link]
  {
    assert ' ' !in path && ' ' !in link;
    var parts := ["-x", "6", "-d", path, link];
    assert parts[3..][1..] == [link];
    var j3 := path + " " + link;
    assert Strings.Join(parts[3..], ' ') == j3;
    assert parts[2..][1..] == parts[3..];
    var j2 := "-d" + " " + j3;
    assert Strings.Join(parts[2..], ' ') == j2;
    assert parts[1..][1..] == parts[2..];
    var j1 := "6" + " " + j2;
    assert Strings.Join(parts[1..], ' ') == j1;
    assert Strings.Join(parts, ' ') == "-x" + " " + j1;
    assert "-x" + " " + j1 == Aria2Args(path, link);
    assert forall k :: 0 <= k < 3 ==> ' ' !in parts[k];
    Strings.JoinSplit(parts, ' ');
  }

  /** What `Downloader(link, path)` prepares: the aria2 arguments when the binary is installed, nothing (an error box) when not. */
  function Prepare(prefix: string, platform: string, machine: string, present: string -> bool, path: string, link: string)
    : (r: Result<Option<string>>)
    ensures r.Ok? && r.value.Some? ==> r.value.value == Aria2Args(path, link)
  {
    match CheckAriaInstallFixed(prefix, platform, machine, present)
    case Raised(e) => Raised(e)
    case Ok(installed) => if installed then Ok(Some(Aria2Args(path, link))) else Ok(None)
  }

  /** The arguments are prepared exactly when the check finds the binary. */
  lemma PrepareFollowsCheck(prefix: string, platform: string, machine: string, present: string -> bool, path: string, link: string)
    ensures Prepare(prefix, platform, machine, present, path, link).Ok? <==> CheckAriaInstallFixed(prefix, platform, machine, present).Ok?
    ensures (Prepare(prefix, platform, machine, present, path, link) == Ok(Some(Aria2Args(path, link))))
              <==> CheckAriaInstallFixed(prefix, platform, machine, present) == Ok(true)
  {
  }
}
