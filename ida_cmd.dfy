/** The command-line adapter for the IDA disassembler: recognising IDA from
    the path of its executable, and creating a database for a binary by
    running IDA in batch mode.

    The filesystem and the shell are abstracted by the `Shell` class: the
    set of existing files and the log of commands run. What a command
    creates, and the wait status it returns, are parameters. */
module IdaCmd {
  import opened Strings
  import opened Wrappers

  /** `os.path.split(path)[-1]`: the text after the last `/`. */
  function Basename(path: string): (b: string)
    ensures '/' !in b
    ensures |b| <= |path| && b == path[|path| - |b|..]
    ensures |b| < |path| ==> path[|path| - |b| - 1] == '/'
  {
    path[LastIndexOf(path, '/') + 1..]
  }

  /** `name.split(".")[0]`: the text before the first `.`. */
  function Stem(name: string): (r: string)
    ensures '.' !in r
    ensures |r| <= |name| && r == name[..|r|]
    ensures |r| < |name| ==> name[|r|] == '.'
  {
    if name == [] || name[0] == '.' then []
    else [name[0]] + Stem(name[1..])
  }

  /** `IdaCMD.identify`: the file name of the tool, up to its first `.`,
      starts with `"ida"` in any letter case. */
  predicate Identify(path: string)
  {
    StartsWith(ToLower(Stem(Basename(path))), "ida")
  }

  /** `identify` holds exactly when the file name's first three characters
      are `i`, `d`, `a` in either case. */
  lemma IdentifyIff(path: string)
    ensures Identify(path) <==> StartsIda(Basename(path))
  {
    StemStartsWithIda(Basename(path));
  }

  /** The stem of a file name starts with `"ida"` up to case exactly when the
      name does. */
  lemma StemStartsWithIda(name: string)
    ensures StartsWith(ToLower(Stem(name)), "ida") <==> StartsIda(name)
  {
    StartsWithIda(ToLower(Stem(name)));
    if StartsIda(name) {
      StemKeepsIda(name);
    } else if |Stem(name)| >= 3 {
      StemLowerPrefix(name);
    }
  }

  /** The first three characters of `name` are `i`, `d`, `a` in either case. */
  predicate StartsIda(name: string)
  {
    |name| >= 3 && LowerChar(name[0]) == 'i' && LowerChar(name[1]) == 'd' && LowerChar(name[2]) == 'a'
  }

  lemma StemKeepsIda(name: string)
    requires StartsIda(name)
    ensures |Stem(name)| >= 3
    ensures ToLower(Stem(name))[0] == 'i' && ToLower(Stem(name))[1] == 'd' && ToLower(Stem(name))[2] == 'a'
  {
    StemKeepsPrefix(name, 3);
    StemLowerPrefix(name);
  }

  lemma StemLowerPrefix(name: string)
    requires |Stem(name)| >= 3
    ensures |name| >= 3
    ensures ToLower(Stem(name))[0] == LowerChar(name[0])
    ensures ToLower(Stem(name))[1] == LowerChar(name[1])
    ensures ToLower(Stem(name))[2] == LowerChar(name[2])
  {
    var st := Stem(name);
    assert st[0] == name[0] && st[1] == name[1] && st[2] == name[2];
  }

  lemma StartsWithIda(x: string)
    ensures StartsWith(x, "ida") <==> |x| >= 3 && x[0] == 'i' && x[1] == 'd' && x[2] == 'a'
  {
    if |x| >= 3 && x[0] == 'i' && x[1] == 'd' && x[2] == 'a' {
      assert x[..3] == "ida";
    }
  }

  /** A prefix of `name` free of `.` is kept by `Stem`. */
  lemma {:induction false} StemKeepsPrefix(name: string, n: nat)
    requires n <= |name|
    requires forall i :: 0 <= i < n ==> name[i] != '.'
    ensures n <= |Stem(name)|
  {
    if n > 0 {
      StemKeepsPrefix(name[1..], n - 1);
    }
  }

  /** Only the file name matters: the directory part is ignored. */
  lemma IdentifyDependsOnBasename(dir: string, name: string)
    requires '/' !in name
    ensures Identify(dir + "/" + name) == Identify(name)
  {
    BasenameOfJoin(dir, name);
    assert Basename(name) == name;
  }

  lemma BasenameOfJoin(dir: string, name: string)
    requires '/' !in name
    ensures Basename(dir + "/" + name) == name
  {
    var p := dir + "/" + name;
    assert p[|dir|] == '/';
    forall i | |dir| < i < |p| ensures p[i] != '/' {
      assert p[i] == name[i - |dir| - 1];
    }
    assert p[|dir| + 1..] == name;
  }

  /** Lower-casing the path first does not change which character is the last `/`. */
  lemma LowerKeepsLastSlash(path: string)
    ensures LastIndexOf(ToLower(path), '/') == LastIndexOf(path, '/')
  {
    var lp := ToLower(path);
    var k, lk := LastIndexOf(path, '/'), LastIndexOf(lp, '/');
    if k != -1 {
      assert lp[k] == '/';
    }
    if lk != -1 {
      assert LowerChar(path[lk]) == '/';
    }
  }

  /** Lower-casing commutes with taking the file name. */
  lemma LowerBasename(path: string)
    ensures Basename(ToLower(path)) == ToLower(Basename(path))
  {
    LowerKeepsLastSlash(path);
    LowerSuffix(path, LastIndexOf(path, '/') + 1);
  }

  /** Lower-casing a name first does not change whether it starts with
      `ida` up to case. */
  lemma StartsIdaLower(name: string)
    ensures StartsIda(ToLower(name)) == StartsIda(name)
  {
    if |name| >= 3 {
      var ln := ToLower(name);
      assert LowerChar(ln[0]) == LowerChar(name[0]);
      assert LowerChar(ln[1]) == LowerChar(name[1]);
      assert LowerChar(ln[2]) == LowerChar(name[2]);
    }
  }

  /** `identify` ignores letter case: two paths equal up to case are both
      recognised or both not. */
  lemma IdentifyCaseInsensitive(p: string, q: string)
    requires ToLower(p) == ToLower(q)
    ensures Identify(p) == Identify(q)
  {
    IdentifyIff(p);
    IdentifyIff(q);
    LowerBasename(p);
    LowerBasename(q);
    StartsIdaLower(Basename(p));
    StartsIdaLower(Basename(q));
  }

  /** A name without `/` is its own file name. */
  lemma BasenameOfName(name: string)
    requires '/' !in name
    ensures Basename(name) == name
  {
  }

  /** A bare file name is recognised exactly when it starts with `ida` in
      any case. */
  lemma IdentifyName(name: string)
    requires '/' !in name
    ensures Identify(name) <==> StartsIda(name)
  {
    BasenameOfName(name);
    StemStartsWithIda(name);
  }

  /** `ida64.exe` is recognised. */
  lemma IdentifyIda64Exe()
    ensures Identify("ida64.exe")
  {
    assert StartsIda("ida64.exe") by {
      assert LowerChar('i') == 'i' && LowerChar('d') == 'd' && LowerChar('a') == 'a';
    }
    IdentifyName("ida64.exe");
  }

  /** `IDA.app` is recognised: the test ignores case. */
  lemma IdentifyIdaApp()
    ensures Identify("IDA.app")
  {
    assert StartsIda("IDA.app") by {
      assert LowerChar('I') == 'i' && LowerChar('D') == 'd' && LowerChar('A') == 'a';
    }
    IdentifyName("IDA.app");
  }

  /** `notida` is not recognised: `ida` must start the name. */
  lemma IdentifyRejectsNotida()
    ensures !Identify("notida")
  {
    assert !StartsIda("notida") by {
      assert LowerChar('n') == 'n' && LowerChar('o') == 'o' && LowerChar('t') == 't';
    }
    IdentifyName("notida");
  }

  /** `id.a` is not recognised: only the text before the first `.` counts. */
  lemma IdentifyRejectsCutName()
    ensures !Identify("id.a")
  {
    assert !StartsIda("id.a") by {
      assert LowerChar('i') == 'i' && LowerChar('d') == 'd' && LowerChar('.') == '.';
    }
    IdentifyName("id.a");
  }

  /** A tool under an `ida` directory is not recognised. */
  lemma IdentifyIgnoresDirectory()
    ensures !Identify("/opt/ida/ghidra")
  {
    assert "/opt/ida/ghidra" == "/opt/ida" + "/" + "ghidra";
    IdentifyDependsOnBasename("/opt/ida", "ghidra");
    assert !StartsIda("ghidra") by {
      assert LowerChar('g') == 'g' && LowerChar('h') == 'h' && LowerChar('i') == 'i';
    }
    IdentifyName("ghidra");
  }

  /** `IdaCMD.name`: the program's name, which `identify` itself recognises. */
  function Name(): (r: string)
    ensures |r| == 3 && Identify(r)
  {
    assert StartsIda("IDA") by {
      assert LowerChar('I') == 'i' && LowerChar('D') == 'd' && LowerChar('A') == 'a';
    }
    IdentifyName("IDA");
    "IDA"
  }

  /** The database file of a binary: the binary's path with `.i64` appended. */
  function DatabasePath(binaryFile: string): (db: string)
    ensures |db| == |binaryFile| + 4 && db[..|binaryFile|] == binaryFile
  {
    binaryFile + ".i64"
  }

  /** Different binaries get different database files, and a database file is
      never the binary itself. */
  lemma DatabasePathInjective(a: string, b: string)
    ensures DatabasePath(a) == DatabasePath(b) <==> a == b
    ensures DatabasePath(a) != a
  {
    if DatabasePath(a) == DatabasePath(b) {
      assert a == DatabasePath(a)[..|a|] == DatabasePath(b)[..|b|] == b;
    }
  }

  /** The batch command: `<tool> -A -B -o<database> <binary>`. */
  function CreateCommand(tool: string, databaseFile: string, binaryFile: string): string
  {
    tool + " -A -B -o" + databaseFile + " " + binaryFile
  }

  /** The range of a C `int`, to which the wait status is converted first. */
  const INT_MIN: int := -0x8000_0000
  const INT_MAX: int := 0x7fff_ffff

  /** `os.waitstatus_to_exitcode(status)` on a POSIX host: the exit code of a
      process that exited, minus the signal number of one that was killed,
      and `None` where Python raises: `OverflowError` outside the C `int`
      range, `ValueError` for a stopped process or an invalid status. The
      bit tests are those of `WIFEXITED`, `WEXITSTATUS`, `WIFSIGNALED` and
      `WTERMSIG`, written with `%` and `/` on two's-complement values. */
  function WaitStatusToExitCode(status: int): (r: Option<int>)
    ensures r.Some? ==> -126 <= r.value <= 255
  {
    if status < INT_MIN || INT_MAX < status then None
    else
      var low := status % 0x80;
      if low == 0 then Some(status / 0x100 % 0x100)
      else if low < 0x7f then Some(-low)
      else None
  }

  /** A process that exited with `code` reports the status `code << 8`, and
      the conversion gives `code` back. */
  lemma ExitedRoundTrip(code: int)
    requires 0 <= code <= 255
    ensures WaitStatusToExitCode(code * 0x100) == Some(code)
  {
    var status := code * 0x100;
    assert status == code * 2 * 0x80;
    assert status % 0x80 == 0;
    assert status / 0x100 == code;
  }

  /** A process killed by signal `sig` (with or without the core-dump bit)
      gives `-sig`. */
  lemma SignaledRoundTrip(sig: int, coreDumped: bool)
    requires 1 <= sig <= 126
    ensures WaitStatusToExitCode(sig + (if coreDumped then 0x80 else 0)) == Some(-sig)
  {
  }

  /** The status -1, which `system(3)` reports when it cannot start the
      shell, and the status of a stopped process make the conversion raise. */
  lemma ConversionRaises()
    ensures WaitStatusToExitCode(-1) == None
    ensures WaitStatusToExitCode(19 * 0x100 + 0x7f) == None
    ensures WaitStatusToExitCode(INT_MAX + 1) == None
  {
  }

  /** The host the adapter runs on: the files that exist and the commands run so far. */
  class Shell {
    var files: set<string>
    var commands: seq<string>

    constructor (existing: set<string>)
      ensures files == existing && commands == []
    {
      files := existing;
      commands := [];
    }

    /** `os.path.exists`. */
    predicate Exists(path: string)
      reads this
    {
      path in files
    }

    /** `os.system(command)`: logs the command; the files it creates and the
        wait status it reports are supplied by the caller. */
    method System(command: string, created: set<string>, waitStatus: int) returns (status: int)
      modifies this
      ensures commands == old(commands) + [command]
      ensures files == old(files) + created
      ensures status == waitStatus
    {
      commands := commands + [command];
      files := files + created;
      status := waitStatus;
    }
  }

  /** `IdaCMD`: the adapter for the IDA executable at `path`. */
  class IdaCMD {
    /** `_path`: the command-line path of the IDA executable. */
    const path: string

    constructor (toolPath: string)
      ensures path == toolPath
    {
      path := toolPath;
    }

    /** `createDatabase`: returns the database path of the binary. When
        `skipPresent` holds and that file exists, nothing is run; otherwise
        IDA is run once in batch mode on the binary, and the wait status is
        converted to an exit code that is then not used: the conversion
        raises (`None`) on a status it rejects. `isWindows` does not affect
        the outcome. */
    method CreateDatabase(binaryFile: string, isWindows: bool, skipPresent: bool,
                          shell: Shell, created: set<string>, waitStatus: int)
      returns (result: Option<string>)
      modifies shell
      ensures result.Some? ==> result.value == DatabasePath(binaryFile)
      ensures skipPresent && old(shell.Exists(DatabasePath(binaryFile))) ==>
                result.Some? && shell.commands == old(shell.commands) && shell.files == old(shell.files)
      ensures !(skipPresent && old(shell.Exists(DatabasePath(binaryFile)))) ==>
                shell.commands == old(shell.commands) + [CreateCommand(path, DatabasePath(binaryFile), binaryFile)]
                && shell.files == old(shell.files) + created
                && (result.Some? <==> WaitStatusToExitCode(waitStatus).Some?)
    {
      var suffix := ".i64";
      var databaseFile := binaryFile + suffix;
      if skipPresent && shell.Exists(databaseFile) {
        return Some(databaseFile);
      }
      var status := shell.System(CreateCommand(path, databaseFile, binaryFile), created, waitStatus);
      var exitCode := WaitStatusToExitCode(status);
      if exitCode.None? {
        return None;
      }
      result := Some(databaseFile);
    }
  }

  /** A second `createDatabase` with `skipPresent` after a run that created
      the database runs nothing more and returns the path, even when the
      first call raised on its wait status. */
  method CreateTwice(ida: IdaCMD, shell: Shell, binaryFile: string, created: set<string>, waitStatus: int)
    returns (second: Option<string>)
    requires DatabasePath(binaryFile) in created
    modifies shell
    ensures shell.commands == old(shell.commands)
              + (if DatabasePath(binaryFile) in old(shell.files) then []
                 else [CreateCommand(ida.path, DatabasePath(binaryFile), binaryFile)])
    ensures shell.files == old(shell.files)
              + (if DatabasePath(binaryFile) in old(shell.files) then {} else created)
    ensures DatabasePath(binaryFile) in shell.files
    ensures second == Some(DatabasePath(binaryFile))
  {
    var first := ida.CreateDatabase(binaryFile, false, true, shell, created, waitStatus);
    second := ida.CreateDatabase(binaryFile, false, true, shell, {}, waitStatus);
  }
}
