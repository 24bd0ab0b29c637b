/** Running the external programs (Inkscape, optipng) and what the extensions report on
    stderr. The subprocess itself is an input: its exit status and merged output. */
module Process {
  import opened Wrappers
  import opened Strings

  /** A finished subprocess: exit status and stdout with stderr merged into it. */
  datatype Completed = Completed(status: int, output: string)

  /** The lines written through `inkex.errormsg`. */
  datatype Msg =
    | MissingExecutable(program: string)
    | Output(text: string)
    | CommandFailed(program: string, status: int)
    | MissingExportNode(id: string)
    | IgnoringNonInsets
    | NoObjectsSelected
    | SelectOneForNewInset
    | SelectExactlyOne

  /** Python exceptions that escape an extension. */
  datatype Exc =
    | AssertionError
    | ZeroDivisionError
    | FileNotFoundError
    | KeyError(key: string)
    | RuntimeError(text: string)
    | NameError(name: string)
    | AttributeError(name: string)

  /** How a call stops early: `sys.exit(status)` or an uncaught exception. */
  datatype Halt = Exit(status: int) | Raise(exc: Exc)

  /** Messages written, then either a value or the reason the call stopped. */
  datatype Outcome<T> = Outcome(msgs: seq<Msg>, result: Result<T, Halt>)

  /** The messages for a failed command: its output if any, then `str(ex)`. */
  function FailureReport(program: string, p: Completed): seq<Msg> {
    (if p.output != "" then [Output(p.output)] else []) + [CommandFailed(program, p.status)]
  }

  /** `run_command(cmd, missing_ok)` of inkex_bh/create_inset.py. `found` is whether
      `shutil.which(cmd[0])` resolves, `verbose` the logger's flag; the result says
      whether the program ran. */
  function RunCommand(program: string, found: bool, p: Completed, verbose: bool, missingOk: bool): (r: Outcome<bool>)
    ensures r.result == Success(false) <==> missingOk && !found
    ensures r.result == Success(false) ==> r.msgs == [MissingExecutable(program)]
    ensures r.result == Failure(Raise(FileNotFoundError)) <==> !missingOk && !found
    ensures r.result == Failure(Exit(1)) <==> found && p.status != 0
    ensures r.result == Failure(Exit(1)) ==> r.msgs == FailureReport(program, p)
    ensures r.result == Success(true) <==> found && p.status == 0
    ensures r.result == Success(true) ==> (r.msgs != [] <==> verbose && p.output != "")
  {
    if missingOk && !found then Outcome([MissingExecutable(program)], Success(false))
    else if !found then Outcome([], Failure(Raise(FileNotFoundError)))
    else if p.status != 0 then Outcome(FailureReport(program, p), Failure(Exit(1)))
    else Outcome(if verbose && p.output != "" then [Output(p.output)] else [], Success(true))
  }

  /** `CreateInset.run(cmd, fail_ok)` of bh-create-inset.py: a failure is reported and is
      fatal unless `fail_ok`; with `verbose` the output is echoed even when empty. */
  function RunChecked(program: string, found: bool, p: Completed, verbose: bool, failOk: bool): (r: Outcome<bool>)
    ensures r.result == Failure(Raise(FileNotFoundError)) <==> !found
    ensures r.result == Failure(Exit(1)) <==> found && p.status != 0 && !failOk
    ensures r.result == Success(false) <==> found && p.status != 0 && failOk
    ensures found && p.status != 0 ==> r.msgs == FailureReport(program, p)
    ensures r.result == Success(true) <==> found && p.status == 0
    ensures r.result == Success(true) ==> (r.msgs == if verbose then [Output(p.output)] else [])
  {
    if !found then Outcome([], Failure(Raise(FileNotFoundError)))
    else if p.status != 0 then Outcome(FailureReport(program, p), if failOk then Success(false) else Failure(Exit(1)))
    else Outcome(if verbose then [Output(p.output)] else [], Success(true))
  }

  // ---- the AppImage command line of inkscape_barnhunt/bh-create-inset.py ----

  /** `os.path.join(a, b)` on POSIX. */
  function PathJoin(a: string, b: string): (r: string)
    ensures StartsWith(b, "/") ==> r == b
    ensures !StartsWith(b, "/") ==> EndsWith(r, b)
  {
    if StartsWith(b, "/") then b
    else if a == "" || EndsWith(a, "/") then a + b
    else a + "/" + b
  }

  /** What the AppImage handling looks up: the environment, `shutil.which`,
      `os.path.isfile` and `os.path.relpath(path, start)`. */
  datatype Host = Host(
    env: map<string, string>,
    which: string -> Option<string>,
    isFile: string -> bool,
    relpath: (string, string) -> string)

  /** An AppImage is active: `APPDIR` is set and not empty, and `APPIMAGE` is set. */
  predicate InAppImage(env: map<string, string>) {
    "APPDIR" in env && env["APPDIR"] != "" && "APPIMAGE" in env
  }

  /** A relative path that leaves its start directory: `..` followed by `os.sep`, or by
      `os.altsep`, which is `None` on POSIX and is formatted as the text `None`. */
  predicate Escapes(rel: string) {
    StartsWith(rel, "../") || StartsWith(rel, "..None")
  }

  /** `is_appimage_executable(prog)` as written: `relpath` is bound only inside an
      AppImage, so outside one a program that resolves raises `NameError`. */
  function IsAppImageExecutableAsWritten(host: Host, prog: string): (r: Result<bool, Exc>)
  {
    match host.which(prog)
    case None => Success(false)
    case Some(executable) =>
      if InAppImage(host.env) then Success(!Escapes(host.relpath(executable, host.env["APPDIR"])))
      else Failure(NameError("relpath"))
  }

  /** `is_appimage_executable(prog)` as its docstring describes it: whether `prog` resolves
      to a file inside the active AppImage, and false when there is none. */
  function IsAppImageExecutable(host: Host, prog: string): (r: bool)
    ensures r <==> host.which(prog).Some? && InAppImage(host.env)
                   && !Escapes(host.relpath(host.which(prog).value, host.env["APPDIR"]))
  {
    match host.which(prog)
    case None => false
    case Some(executable) => InAppImage(host.env) && !Escapes(host.relpath(executable, host.env["APPDIR"]))
  }

  /** The check as written stops exactly for a resolvable program outside an AppImage, and
      wherever it answers it answers as intended. */
  lemma AppImageCheckAsWritten(host: Host, prog: string)
    ensures IsAppImageExecutableAsWritten(host, prog).Failure? <==> host.which(prog).Some? && !InAppImage(host.env)
    ensures IsAppImageExecutableAsWritten(host, prog).Failure? ==>
      IsAppImageExecutableAsWritten(host, prog).error == NameError("relpath")
    ensures IsAppImageExecutableAsWritten(host, prog).Success? ==>
      IsAppImageExecutableAsWritten(host, prog).value == IsAppImageExecutable(host, prog)
  {
  }

  /** A concrete host that shows the discrepancy: `inkscape` on the search path and no
      AppImage in the environment. */
  lemma AppImageCheckCounterexample()
    ensures var host := Host(map[], p => Some("/usr/bin/" + p), p => true, (p, d) => p);
      && IsAppImageExecutableAsWritten(host, "inkscape") == Failure(NameError("relpath"))
      && !IsAppImageExecutable(host, "inkscape")
  {
    var host := Host(map[], p => Some("/usr/bin/" + p), p => true, (p, d) => p);
    assert !InAppImage(host.env);
  }

  const PLATFORM: string := "x86_64-linux-gnu"
  const LD_SO: string := "ld-linux-x86-64.so.2"

  function LdLinux(appdir: string): string {
    PathJoin(PathJoin(PathJoin(appdir, "lib"), PLATFORM), LD_SO)
  }

  function LibPath(appdir: string): seq<string> {
    [PathJoin(PathJoin(appdir, "lib"), PLATFORM),
     PathJoin(PathJoin(appdir, "usr/lib"), PLATFORM),
     PathJoin(appdir, "usr/lib")]
  }

  /** `mangle_cmd_for_appimage(cmd)`: run the program through the AppImage's own dynamic
      loader with the AppImage's library directories. */
  function MangleCmdForAppImage(host: Host, cmd: seq<string>): (r: Result<seq<string>, Exc>)
    requires |cmd| >= 1
    ensures "APPDIR" !in host.env ==> r == Failure(KeyError("APPDIR"))
    ensures "APPDIR" in host.env && host.which(cmd[0]).None? ==> r == Failure(AssertionError)
    ensures r.Success? <==> "APPDIR" in host.env && host.which(cmd[0]).Some? && host.isFile(LdLinux(host.env["APPDIR"]))
    ensures r.Success? ==> |r.value| == |cmd| + 4 && r.value[5..] == cmd[1..]
  {
    if "APPDIR" !in host.env then Failure(KeyError("APPDIR"))
    else
      var appdir := host.env["APPDIR"];
      match host.which(cmd[0])
      case None => Failure(AssertionError)
      case Some(executable) =>
        var ldLinux := LdLinux(appdir);
        if !host.isFile(ldLinux) then Failure(RuntimeError("Can not find ld-linux in AppImage"))
        else Success([ldLinux, "--inhibit-cache", "--library-path", Join(LibPath(appdir), ":"), executable] + cmd[1..])
  }

  lemma PathJoinPlain(a: string, b: string)
    requires a != [] && a[|a| - 1] != '/' && b != [] && b[0] != '/'
    ensures PathJoin(a, b) == a + "/" + b
  {
  }

  lemma LibDirOf(d: string)
    requires d != [] && d[|d| - 1] != '/'
    ensures PathJoin(PathJoin(d, "lib"), PLATFORM) == d + "/lib/x86_64-linux-gnu"
  {
    PathJoinPlain(d, "lib");
    assert d + "/" + "lib" == d + "/lib";
    PathJoinPlain(d + "/lib", PLATFORM);
    assert d + "/lib" + "/" + PLATFORM == d + "/lib/x86_64-linux-gnu";
  }

  lemma UsrLibDirOf(d: string)
    requires d != [] && d[|d| - 1] != '/'
    ensures PathJoin(d, "usr/lib") == d + "/usr/lib"
    ensures PathJoin(PathJoin(d, "usr/lib"), PLATFORM) == d + "/usr/lib/x86_64-linux-gnu"
  {
    PathJoinPlain(d, "usr/lib");
    assert d + "/" + "usr/lib" == d + "/usr/lib";
    PathJoinPlain(d + "/usr/lib", PLATFORM);
    assert d + "/usr/lib" + "/" + PLATFORM == d + "/usr/lib/x86_64-linux-gnu";
  }

  lemma LdLinuxOf(d: string)
    requires d != [] && d[|d| - 1] != '/'
    ensures LdLinux(d) == d + "/lib/x86_64-linux-gnu" + "/" + LD_SO
  {
    LibDirOf(d);
    PathJoinPlain(d + "/lib/x86_64-linux-gnu", LD_SO);
  }

  lemma LibPathOf(d: string)
    requires d != [] && d[|d| - 1] != '/'
    ensures LdLinux(d) == d + "/lib/x86_64-linux-gnu" + "/" + LD_SO
    ensures LibPath(d) == [d + "/lib/x86_64-linux-gnu", d + "/usr/lib/x86_64-linux-gnu", d + "/usr/lib"]
  {
    LdLinuxOf(d);
    LibDirOf(d);
    UsrLibDirOf(d);
  }

  /** For an ordinary AppImage mount point, the loader and the library path are the
      expected absolute paths, and the library path splits back into its three directories. */
  lemma MangledCommandLine(host: Host, cmd: seq<string>)
    requires |cmd| >= 1 && "APPDIR" in host.env
    requires var d := host.env["APPDIR"]; d != [] && d[|d| - 1] != '/' && ':' !in d
    requires MangleCmdForAppImage(host, cmd).Success?
    ensures var d, argv := host.env["APPDIR"], MangleCmdForAppImage(host, cmd).value;
      && argv[0] == d + "/lib/x86_64-linux-gnu" + "/" + LD_SO
      && argv[1..3] == ["--inhibit-cache", "--library-path"]
      && argv[4] == host.which(cmd[0]).value
      && Split(argv[3], ':') == [d + "/lib/x86_64-linux-gnu", d + "/usr/lib/x86_64-linux-gnu", d + "/usr/lib"]
  {
    var d := host.env["APPDIR"];
    var argv := MangleCmdForAppImage(host, cmd).value;
    MangledHead(host, cmd);
    assert argv[1..3] == [argv[1], argv[2]];
    LibPathOf(d);
    LibPathSplits(d);
  }

  /** The five words put in front of the command. */
  lemma MangledHead(host: Host, cmd: seq<string>)
    requires |cmd| >= 1 && MangleCmdForAppImage(host, cmd).Success?
    ensures "APPDIR" in host.env && host.which(cmd[0]).Some?
    ensures var d, argv := host.env["APPDIR"], MangleCmdForAppImage(host, cmd).value;
      && |argv| >= 5 && argv[0] == LdLinux(d) && argv[1] == "--inhibit-cache" && argv[2] == "--library-path"
      && argv[3] == Join(LibPath(d), ":") && argv[4] == host.which(cmd[0]).value
  {
  }

  lemma PathJoinNoColon(a: string, b: string)
    requires ':' !in a && ':' !in b
    ensures ':' !in PathJoin(a, b)
  {
  }

  lemma LiteralsColonFree()
    ensures ':' !in "lib" && ':' !in "usr/lib" && ':' !in PLATFORM
  {
  }

  /** The library path splits back into its three directories. */
  lemma LibPathSplits(d: string)
    requires ':' !in d
    ensures Split(Join(LibPath(d), ":"), ':') == LibPath(d)
  {
    LiteralsColonFree();
    var lib, usrLib := PathJoin(d, "lib"), PathJoin(d, "usr/lib");
    PathJoinNoColon(d, "lib");
    PathJoinNoColon(d, "usr/lib");
    PathJoinNoColon(lib, PLATFORM);
    PathJoinNoColon(usrLib, PLATFORM);
    var libs := LibPath(d);
    assert libs == [PathJoin(lib, PLATFORM), PathJoin(usrLib, PLATFORM), usrLib];
    SplitJoin(libs, ':');
  }

  /** `run(cmd, verbose, missing_ok)` of inkscape_barnhunt/bh-create-inset.py. `appimage`
      is whether `is_appimage_executable(cmd[0])` holds and `p` is how the command that was
      finally executed completed; the result is that command, or `None` when skipped. */
  function RunLegacy(host: Host, appimage: bool, cmd: seq<string>, p: Completed, verbose: bool, missingOk: bool): (r: Outcome<Option<seq<string>>>)
    requires |cmd| >= 1
    ensures r.result == Success(None) <==> missingOk && host.which(cmd[0]).None?
    ensures r.result == Success(None) ==> r.msgs == [MissingExecutable(cmd[0])]
    ensures r.result.Success? && r.result.value.Some? ==> p.status == 0 && (r.msgs != [] <==> verbose && p.output != "")
    ensures r.result.Success? && r.result.value.Some? && appimage ==> MangleCmdForAppImage(host, cmd) == Success(r.result.value.value)
    ensures r.result.Success? && r.result.value.Some? && !appimage ==> r.result.value.value == cmd
    ensures !(missingOk && host.which(cmd[0]).None?) && appimage && MangleCmdForAppImage(host, cmd).Failure? ==>
      r.result == Failure(Raise(MangleCmdForAppImage(host, cmd).error))
    ensures r.result == Failure(Exit(1)) ==> p.status != 0 && r.msgs == FailureReport(cmd[0], p)
  {
    if missingOk && host.which(cmd[0]).None? then Outcome([MissingExecutable(cmd[0])], Success(None))
    else
      var mangled := if appimage then MangleCmdForAppImage(host, cmd) else Success(cmd);
      match mangled
      case Failure(e) => Outcome([], Failure(Raise(e)))
      case Success(argv) =>
        if host.which(argv[0]).None? then Outcome([], Failure(Raise(FileNotFoundError)))
        else if p.status != 0 then Outcome(FailureReport(cmd[0], p), Failure(Exit(1)))
        else Outcome(if verbose && p.output != "" then [Output(p.output)] else [], Success(Some(argv)))
  }

  /** Outside an AppImage, the older runner behaves as the newer one: the same messages,
      a skipped program is `False`, a program that ran is `True`, and the same halts. */
  lemma RunLegacyAgrees(host: Host, program: string, p: Completed, verbose: bool, missingOk: bool)
    ensures var r, q := RunLegacy(host, false, [program], p, verbose, missingOk), RunCommand(program, host.which(program).Some?, p, verbose, missingOk);
      && r.msgs == q.msgs
      && (r.result == Success(None) <==> q.result == Success(false))
      && (r.result.Success? && r.result.value.Some? <==> q.result == Success(true))
      && (r.result.Failure? <==> q.result.Failure?)
      && (r.result.Failure? ==> r.result.error == q.result.error)
  {
  }
}
