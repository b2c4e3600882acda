/**
 * Selection of the shared library for the host platform (`get_library_path`).
 * The results of `platform.system()` and `platform.machine()`, and the host's
 * path separator used by `os.path.join`, are parameters; the absolute-path
 * step is not modelled, so the result is the relative path.
 */
module LibraryPath {
  import opened Wrappers

  /** ASCII lower-casing of one character. */
  function LowerChar(c: char): char {
    if 'A' <= c <= 'Z' then (c as int + 32) as char else c
  }

  /** `str.lower()`, restricted to ASCII letters. */
  function Lower(s: string): (r: string)
    ensures |r| == |s|
    ensures forall i :: 0 <= i < |s| ==> r[i] == LowerChar(s[i])
  {
    if s == [] then [] else [LowerChar(s[0])] + Lower(s[1..])
  }

  /** `a` and `b` are the same up to the case of ASCII letters. */
  predicate EqualsIgnoringCase(a: string, b: string) {
    |a| == |b| && forall i :: 0 <= i < |a| ==> LowerChar(a[i]) == LowerChar(b[i])
  }

  /** No character of `t` changes under lower-casing. */
  predicate IsLowerCase(t: string) {
    forall i :: 0 <= i < |t| ==> LowerChar(t[i]) == t[i]
  }

  /** Comparing the lowered string with a lower-case name is a case-insensitive comparison. */
  lemma LowerEqualsIff(s: string, t: string)
    requires IsLowerCase(t)
    ensures Lower(s) == t <==> EqualsIgnoringCase(s, t)
  {
  }

  /** The architecture names accepted for each release build. */
  const X86Aliases: seq<string> := ["amd64", "x86_64"]
  const ArmAliases: seq<string> := ["arm64", "aarch64"]

  /** The normalised architecture tag of `machine`, or None when it is unsupported. */
  function NormaliseArch(machine: string): (arch: Option<string>)
    ensures arch == Some("x86_64") <==>
              EqualsIgnoringCase(machine, "amd64") || EqualsIgnoringCase(machine, "x86_64")
    ensures arch == Some("aarch64") <==>
              EqualsIgnoringCase(machine, "arm64") || EqualsIgnoringCase(machine, "aarch64")
    ensures arch.Some? ==> arch == Some("x86_64") || arch == Some("aarch64")
  {
    LowerEqualsIff(machine, "amd64");
    LowerEqualsIff(machine, "x86_64");
    LowerEqualsIff(machine, "arm64");
    LowerEqualsIff(machine, "aarch64");
    var m := Lower(machine);
    if m in X86Aliases then Some("x86_64")
    else if m in ArmAliases then Some("aarch64")
    else None
  }

  /** The os-tag of a release directory and the library file inside it. */
  datatype Target = Target(osName: string, libName: string)

  /** The release target for the value of `platform.system()`, or None when it is unsupported. */
  function OsTarget(system: string): (t: Option<Target>)
    ensures t.Some? <==> system == "Windows" || system == "Darwin" || system == "Linux"
    ensures system == "Windows" ==> t == Some(Target("windows", "bin/statedb_parser.dll"))
    ensures system == "Darwin" ==> t == Some(Target("macos", "lib/libstatedb_parser.dylib"))
    ensures system == "Linux" ==> t == Some(Target("linux", "lib/libstatedb_parser.so"))
  {
    if system == "Windows" then Some(Target("windows", "bin/statedb_parser.dll"))
    else if system == "Darwin" then Some(Target("macos", "lib/libstatedb_parser.dylib"))
    else if system == "Linux" then Some(Target("linux", "lib/libstatedb_parser.so"))
    else None
  }

  /** The two `OSError`s `get_library_path` raises. */
  datatype PathError =
    | UnsupportedArchitecture(machine: string)
    | UnsupportedOperatingSystem(system: string)
  {
    const ArchPrefix: string := "Unsupported architecture: "
    const OsPrefix: string := "Unsupported operating system: "

    /** The text of the raised error; the offending name can be read back from it. */
    function Message(): (m: string)
      ensures UnsupportedArchitecture? ==>
                |m| >= |ArchPrefix| && m[..|ArchPrefix|] == ArchPrefix && m[|ArchPrefix|..] == machine
      ensures UnsupportedOperatingSystem? ==>
                |m| >= |OsPrefix| && m[..|OsPrefix|] == OsPrefix && m[|OsPrefix|..] == system
    {
      match this
      case UnsupportedArchitecture(machine) => ArchPrefix + machine
      case UnsupportedOperatingSystem(system) => OsPrefix + system
    }
  }

  /** Two different errors never have the same text: the message tells which check failed and on which name. */
  lemma MessageInjective(e1: PathError, e2: PathError)
    ensures e1.Message() == e2.Message() ==> e1 == e2
  {
    var m1, m2 := e1.Message(), e2.Message();
    if m1 == m2 {
      // "Unsupported " is 12 characters; the next one is 'a' or 'o'.
      assert m1[12] == if e1.UnsupportedArchitecture? then 'a' else 'o';
      assert m2[12] == if e2.UnsupportedArchitecture? then 'a' else 'o';
    }
  }

  /** `os.path.join("release", dir, lib)` for a host separator `sep`: none of the parts is rooted. */
  function JoinRelease(sep: char, dir: string, lib: string): string {
    "release" + [sep] + dir + [sep] + lib
  }

  /** The relative library path for the host platform. */
  function LibraryPath(system: string, machine: string, sep: char): (r: Result<string, PathError>)
    ensures NormaliseArch(machine).None? ==> r == Err(UnsupportedArchitecture(Lower(machine)))
    ensures NormaliseArch(machine).Some? && OsTarget(system).None? ==>
              r == Err(UnsupportedOperatingSystem(system))
    ensures r.Ok? <==> NormaliseArch(machine).Some? && OsTarget(system).Some?
    ensures r.Ok? ==>
              var arch, t := NormaliseArch(machine).value, OsTarget(system).value;
              r.value == JoinRelease(sep, "statedb-" + arch + "-" + t.osName, t.libName)
  {
    match NormaliseArch(machine)
    case None => Err(UnsupportedArchitecture(Lower(machine)))
    case Some(arch) =>
      match OsTarget(system)
      case None => Err(UnsupportedOperatingSystem(system))
      case Some(t) => Ok(JoinRelease(sep, "statedb-" + arch + "-" + t.osName, t.libName))
  }

  /** Any casing of the machine name selects the same path, or raises the same error. */
  lemma CaseInsensitiveMachine(system: string, m1: string, m2: string, sep: char)
    requires EqualsIgnoringCase(m1, m2)
    ensures LibraryPath(system, m1, sep) == LibraryPath(system, m2, sep)
  {
    assert Lower(m1) == Lower(m2);
  }

  /** An unsupported architecture is reported whatever the operating system is. */
  lemma ArchCheckedFirst(system: string, machine: string, sep: char)
    requires !(EqualsIgnoringCase(machine, "amd64") || EqualsIgnoringCase(machine, "x86_64"))
    requires !(EqualsIgnoringCase(machine, "arm64") || EqualsIgnoringCase(machine, "aarch64"))
    ensures LibraryPath(system, machine, sep) == Err(UnsupportedArchitecture(Lower(machine)))
  {
  }

  /** Where the architecture tag and the os-tag begin inside a release path. */
  lemma ReleaseDirPositions(sep: char, arch: string, osName: string, lib: string)
    requires |arch| > 0 && |osName| > 0
    ensures var p := JoinRelease(sep, "statedb-" + arch + "-" + osName, lib);
      |p| > 17 + |arch| && p[16] == arch[0] && p[17 + |arch|] == osName[0]
  {
  }

  /** A selected path determines the platform: the system name and the normalised architecture. */
  lemma PathDeterminesPlatform(s1: string, m1: string, s2: string, m2: string, sep: char)
    requires LibraryPath(s1, m1, sep).Ok?
    requires LibraryPath(s1, m1, sep) == LibraryPath(s2, m2, sep)
    ensures s1 == s2
    ensures NormaliseArch(m1) == NormaliseArch(m2)
  {
    var a1, a2 := NormaliseArch(m1).value, NormaliseArch(m2).value;
    var t1, t2 := OsTarget(s1).value, OsTarget(s2).value;
    ReleaseDirPositions(sep, a1, t1.osName, t1.libName);
    ReleaseDirPositions(sep, a2, t2.osName, t2.libName);
    assert a1[0] == a2[0];
    assert a1 == a2;
    assert t1.osName[0] == t2.osName[0];
  }

  /** The release directory of the x86_64 Linux build. */
  lemma X86LinuxDir()
    ensures "statedb-" + "x86_64" + "-" + "linux" == "statedb-x86_64-linux"
  {
    assert "statedb-" + "x86_64" == "statedb-x86_64";
    assert "statedb-x86_64" + "-" == "statedb-x86_64-";
  }

  /** The three parts of the x86_64 Linux path, joined with '/'. */
  lemma X86LinuxJoin()
    ensures JoinRelease('/', "statedb-x86_64-linux", "lib/libstatedb_parser.so")
         == "release/statedb-x86_64-linux/lib/libstatedb_parser.so"
  {
    assert "release" + ['/'] == "release/";
    assert "release/" + "statedb-x86_64-linux" == "release/statedb-x86_64-linux";
    assert "release/statedb-x86_64-linux" + ['/'] == "release/statedb-x86_64-linux/";
    assert "release/statedb-x86_64-linux/" + "lib/libstatedb_parser.so"
        == "release/statedb-x86_64-linux/lib/libstatedb_parser.so";
  }

  /** The example path: an x86_64 Linux host with '/' as separator. */
  lemma X86LinuxPath(machine: string)
    requires NormaliseArch(machine) == Some("x86_64")
    ensures LibraryPath("Linux", machine, '/') == Ok("release/statedb-x86_64-linux/lib/libstatedb_parser.so")
  {
    X86LinuxDir();
    X86LinuxJoin();
    assert OsTarget("Linux") == Some(Target("linux", "lib/libstatedb_parser.so"));
  }
}
