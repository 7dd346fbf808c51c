/** What activating an entry does (`MainWindow._run_entry`), as a plan: the
    decision the method takes before it hands a command to the operating
    system. */
module Launch {
  import opened Wrappers
  import opened Text
  import opened Paths
  import opened Entries

  /** The action `_run_entry` takes. The command strings themselves (window
      title, quoting, `pause`) are not modelled, only what they run and where. */
  datatype Plan =
    | NoLaunch                                              // a separator
    | NotFound                                              // the path does not exist: a warning
    | PythonConsole(script: string, changeTo: Option<string>)   // `python` in a new console
    | DirectConsole(program: string, changeTo: Option<string>)  // the program itself in a new console
    | StartFile(target: string)                             // `os.startfile` on Windows
    | Spawn(program: string, cwd: Option<string>)           // `Popen([path], cwd=cwd)` elsewhere

  const PythonExtensions: set<string> := {".py", ".pyw"}
  const ConsoleExtensions: set<string> := {".exe", ".bat", ".cmd"}

  /** `os.path.dirname(path) or None`. */
  function WorkingDir(path: string): (cwd: Option<string>)
    ensures cwd.None? <==> DriveLength(path) == 0 && NoSep(path)
    ensures cwd.Some? ==> cwd.value == Dirname(path) && cwd.value != ""
  {
    DirnameEmptyIff(path);
    var d := Dirname(path);
    if d == "" then None else Some(d)
  }

  /** `os.path.splitext(path)[1].lower()`. */
  function Extension(path: string): string
  {
    Lower(Ext(path))
  }

  /** The three ways `_run_entry` starts a file, chosen by its extension. */
  datatype Kind = PythonScript | ConsoleProgram | OtherFile

  function Classify(path: string): Kind
  {
    var ext := Extension(path);
    if ext in PythonExtensions then PythonScript
    else if ext in ConsoleExtensions then ConsoleProgram
    else OtherFile
  }

  /** The decisions of `_run_entry`. `pathExists` is `os.path.exists(path)`
      and `onWindows` is whether `sys.platform` starts with "win". */
  function Resolve(e: Entry, pathExists: bool, onWindows: bool): (p: Plan)
    ensures e.IsSeparator() ==> p == NoLaunch
    ensures !e.IsSeparator() && !pathExists ==> p == NotFound
    ensures p.PythonConsole? <==> !e.IsSeparator() && pathExists && Classify(e.path) == PythonScript
    ensures p.DirectConsole? <==> !e.IsSeparator() && pathExists && Classify(e.path) == ConsoleProgram
    ensures p.StartFile? || p.Spawn? <==> !e.IsSeparator() && pathExists && Classify(e.path) == OtherFile
    ensures p.PythonConsole? ==> p.script == e.path && p.changeTo == WorkingDir(e.path)
    ensures p.DirectConsole? ==> p.program == e.path && p.changeTo == WorkingDir(e.path)
    ensures p.StartFile? ==> p.target == e.path && onWindows
    ensures p.Spawn? ==> p.program == e.path && p.cwd == WorkingDir(e.path) && !onWindows
  {
    if e.IsSeparator() then NoLaunch
    else if !pathExists then NotFound
    else
      var cwd := WorkingDir(e.path);
      match Classify(e.path)
      case PythonScript => PythonConsole(e.path, cwd)
      case ConsoleProgram => DirectConsole(e.path, cwd)
      case OtherFile => if onWindows then StartFile(e.path) else Spawn(e.path, cwd)
  }

  lemma LowerDot(y: string)
    ensures Lower("." + y) == "." + Lower(y)
  {
    assert Lower("." + y)[0] == '.';
    forall k | 1 <= k < |y| + 1 ensures Lower("." + y)[k] == ("." + Lower(y))[k] {
      assert ("." + y)[k] == y[k - 1];
    }
  }

  /** A path ending in a dotted suffix: `suffix` is the lower-cased text
      after the last dot, which follows a stem in the last component. */
  ghost predicate EndsWith(path: string, suffix: string)
  {
    exists r, y :: path == r + "." + y && HasStem(r) && NoSep(y) && NoDot(y) && Lower(y) == suffix
  }

  lemma {:induction false} ExtensionSplits(path: string, x: string)
    requires Extension(path) == "." + x
    ensures EndsWith(path, x)
  {
    var ext := Ext(path);
    assert |ext| == |x| + 1;
    var y := ext[1..];
    assert ext == "." + y by {
      assert ext[0] == '.';
    }
    assert NoSep(y) && NoDot(y) by {
      forall k | 0 <= k < |y| ensures !IsSep(y[k]) && y[k] != '.' {
        assert y[k] == ext[k + 1];
      }
    }
    ExtSplits(path, y);
    assert Lower(y) == x by {
      LowerDot(y);
      assert Lower(y) == ("." + Lower(y))[1..];
      assert x == ("." + x)[1..];
    }
    var r := Root(path);
    assert path == r + "." + y && HasStem(r) && NoSep(y) && NoDot(y) && Lower(y) == x;
  }

  lemma {:induction false} ExtensionOfSuffix(path: string, x: string)
    requires EndsWith(path, x)
    ensures Extension(path) == "." + x
  {
    var r, y :| path == r + "." + y && HasStem(r) && NoSep(y) && NoDot(y) && Lower(y) == x;
    ExtOfAppend(r, y);
    LowerDot(y);
  }

  /** The lower-cased extension is ".x" exactly when the path is a root with a
      stem, a dot, and a tail free of dots and separators that lower-cases to
      x: "run.PY" and "C:\\tools\\run.py" end with "py", ".py" and
      "run.py\\" do not. */
  lemma ExtensionIs(path: string, x: string)
    ensures Extension(path) == "." + x <==> EndsWith(path, x)
  {
    if Extension(path) == "." + x {
      ExtensionSplits(path, x);
    }
    if EndsWith(path, x) {
      ExtensionOfSuffix(path, x);
    }
  }

  /** Proof helper: `ExtensionIs` with the dotted extension given as a
      separate literal, so that ".py" in `Classify` meets "." + "py". */
  lemma ExtensionIsLiteral(path: string, x: string, dotted: string)
    requires dotted == "." + x
    ensures Extension(path) == dotted <==> EndsWith(path, x)
  {
    ExtensionIs(path, x);
  }

  /** A file runs in a Python console exactly when its name ends in ".py"
      or ".pyw", in any letter case. */
  lemma PythonIff(path: string)
    ensures Classify(path) == PythonScript <==> EndsWith(path, "py") || EndsWith(path, "pyw")
  {
    ExtensionIsLiteral(path, "py", ".py");
    ExtensionIsLiteral(path, "pyw", ".pyw");
  }

  /** A file runs directly in a console exactly when its name ends in
      ".exe", ".bat" or ".cmd", in any letter case. */
  lemma ConsoleIff(path: string)
    ensures Classify(path) == ConsoleProgram <==>
              EndsWith(path, "exe") || EndsWith(path, "bat") || EndsWith(path, "cmd")
  {
    var ext := Extension(path);
    assert Classify(path) == ConsoleProgram <==> ext == ".exe" || ext == ".bat" || ext == ".cmd" by {
      assert ".exe" != ".py" && ".exe" != ".pyw";
      assert ".bat" != ".py" && ".bat" != ".pyw";
      assert ".cmd" != ".py" && ".cmd" != ".pyw";
    }
    ExtensionIsLiteral(path, "exe", ".exe");
    ExtensionIsLiteral(path, "bat", ".bat");
    ExtensionIsLiteral(path, "cmd", ".cmd");
  }

  /** Only a non-separator entry whose path exists starts anything. */
  lemma LaunchesOnlyExisting(e: Entry, pathExists: bool, onWindows: bool)
    ensures Resolve(e, pathExists, onWindows) !in {NoLaunch, NotFound} <==> !e.IsSeparator() && pathExists
  {
  }

  /** `_run_entry` as written: the Python branch interpolates `cwd` into
      `cd /d "{cwd}"` without checking it, so for a bare file name, where
      `cwd` is None, the console changes to a directory literally named
      "None". */
  function ResolveAsWritten(e: Entry, pathExists: bool, onWindows: bool): (p: Plan)
    ensures p.PythonConsole? ==> p.changeTo.Some?
    ensures !p.PythonConsole? ==> p == Resolve(e, pathExists, onWindows)
  {
    match Resolve(e, pathExists, onWindows)
    case PythonConsole(script, cwd) =>
      PythonConsole(script, Some(if cwd.Some? then cwd.value else "None"))
    case other => other
  }

  /** The as-written plan differs from the intended one exactly for a Python
      script given by a bare file name: the console is sent to "None"
      instead of staying where it starts. */
  lemma AsWrittenDiffers(e: Entry, pathExists: bool, onWindows: bool)
    ensures ResolveAsWritten(e, pathExists, onWindows) != Resolve(e, pathExists, onWindows) <==>
              Resolve(e, pathExists, onWindows).PythonConsole? && DriveLength(e.path) == 0 && NoSep(e.path)
    ensures ResolveAsWritten(e, pathExists, onWindows) != Resolve(e, pathExists, onWindows) ==>
              ResolveAsWritten(e, pathExists, onWindows).changeTo == Some("None")
  {
  }

  /** An existing script given by a bare file name ending in ".py": the
      program as written sends its console to "None", the intended plan
      leaves the console where it starts. */
  lemma BareScriptChangesToNone(e: Entry, onWindows: bool)
    requires !e.IsSeparator() && EndsWith(e.path, "py")
    requires DriveLength(e.path) == 0 && NoSep(e.path)
    ensures ResolveAsWritten(e, true, onWindows) == PythonConsole(e.path, Some("None"))
    ensures Resolve(e, true, onWindows) == PythonConsole(e.path, None)
  {
    PythonIff(e.path);
  }

  /** The entry with path "tool.py" is such a script. */
  lemma ToolScriptIsBare()
    ensures EndsWith("tool.py", "py")
    ensures DriveLength("tool.py") == 0 && NoSep("tool.py")
  {
    var r, y := "tool", "py";
    assert AfterLastSep(r) == 0 by {
      assert NoSep(r);
      assert r[..3] == "too" && r[..2] == "to" && r[..1] == "t";
    }
    assert r[0] != '.';
    assert Lower(y) == y;
    assert "tool.py" == r + "." + y;
  }
}
