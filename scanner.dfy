/** The driver of `main`: the loop that folds the engine's answers into a
    report, the exit-code decision, and one run from the command line to
    the two report files. */

module Scanner {
  import opened Wrappers
  import opened Text
  import opened ReportFormat
  import opened ReportReader
  import opened ReportWriter
  import opened Traverse
  import opened Cli

  // ---------------------------------------------------------------- scan loop

  /** The records one file yields: one per rule id the engine reports for
      it, in the engine's order, each carrying the file's path. */
  function Tagged(rules: seq<string>, file: string): seq<ScanMatch> {
    seq(|rules|, k requires 0 <= k < |rules| => ScanMatch(rules[k], file))
  }

  /** The match list after scanning `files` in order with `engine`, which
      stands for the compiled rules: a total function from a path to the
      ids of the rules that matched it. */
  function Collected(files: seq<string>, engine: string -> seq<string>): seq<ScanMatch> {
    if files == [] then []
    else
      var last := files[|files| - 1];
      Collected(files[..|files| - 1], engine) + Tagged(engine(last), last)
  }

  /** The scan loop: every listed file counts as scanned, each rule the
      engine reports for it appends one match and bumps the match counter.
      Errors and skipped files are never counted, and the duration comes
      from the clock, here a parameter. */
  method ScanAll(files: seq<string>, engine: string -> seq<string>, rulePath: string, rootDir: string,
                 durationMs: nat) returns (r: Report)
    ensures r.matches == Collected(files, engine)
    ensures r.stats == ScanStats(|files|, |r.matches|, 0, 0, durationMs)
    ensures r.rulePath == rulePath && r.rootDir == rootDir
  {
    var matches: seq<ScanMatch> := [];
    var filesScanned: nat := 0;
    var matchCount: nat := 0;
    for i := 0 to |files|
      invariant matches == Collected(files[..i], engine)
      invariant filesScanned == i && matchCount == |matches|
    {
      var f := files[i];
      assert files[..i + 1][..i] == files[..i];
      var found := engine(f);
      filesScanned := filesScanned + 1;
      if found == [] {
        continue;
      }
      for j := 0 to |found|
        invariant matches == Collected(files[..i], engine) + Tagged(found[..j], f)
        invariant matchCount == |matches|
      {
        assert Tagged(found[..j + 1], f) == Tagged(found[..j], f) + [ScanMatch(found[j], f)];
        matches := matches + [ScanMatch(found[j], f)];
        matchCount := matchCount + 1;
      }
      assert found[..|found|] == found;
    }
    assert files[..|files|] == files;
    r := Report(matches, ScanStats(filesScanned, matchCount, 0, 0, durationMs), rulePath, rootDir);
  }

  /** Scanning distributes over the file list: the matches are grouped by
      file, in the order the files were scanned. */
  lemma {:induction false} CollectedAppend(a: seq<string>, b: seq<string>, engine: string -> seq<string>)
    ensures Collected(a + b, engine) == Collected(a, engine) + Collected(b, engine)
    decreases |b|
  {
    if b == [] {
      assert a + b == a;
    } else {
      var n := |b| - 1;
      var ab := a + b;
      assert ab[..|ab| - 1] == a + b[..n];
      assert ab[|ab| - 1] == b[n];
      var tail := Tagged(engine(b[n]), b[n]);
      calc {
        Collected(ab, engine);
        Collected(a + b[..n], engine) + tail;
        { CollectedAppend(a, b[..n], engine); }
        (Collected(a, engine) + Collected(b[..n], engine)) + tail;
        Collected(a, engine) + (Collected(b[..n], engine) + tail);
        Collected(a, engine) + Collected(b, engine);
      }
    }
  }

  /** One file contributes exactly the engine's rule ids for it, in the
      engine's order. */
  lemma CollectedSingle(f: string, engine: string -> seq<string>)
    ensures |Collected([f], engine)| == |engine(f)|
    ensures forall k | 0 <= k < |engine(f)| :: Collected([f], engine)[k] == ScanMatch(engine(f)[k], f)
  {
    assert [f][..0] == [];
  }

  /** A record is in the list exactly when its file was scanned and the
      engine reported its rule for that file. */
  lemma {:induction false} CollectedMember(files: seq<string>, engine: string -> seq<string>, m: ScanMatch)
    ensures m in Collected(files, engine) <==> m.file in files && m.rule in engine(m.file)
  {
    if files != [] {
      var n := |files| - 1;
      var last := files[n];
      CollectedMember(files[..n], engine, m);
      assert files == files[..n] + [last];
      if m in Tagged(engine(last), last) {
        var k :| 0 <= k < |engine(last)| && Tagged(engine(last), last)[k] == m;
      }
      if m.file == last && m.rule in engine(last) {
        var k :| 0 <= k < |engine(last)| && engine(last)[k] == m.rule;
        assert Tagged(engine(last), last)[k] == m;
      }
    }
  }

  /** The match count is the sum of what the engine reports per file. */
  function Hits(files: seq<string>, engine: string -> seq<string>): nat {
    if files == [] then 0 else |engine(files[0])| + Hits(files[1..], engine)
  }

  lemma {:induction false} CollectedCount(files: seq<string>, engine: string -> seq<string>)
    ensures |Collected(files, engine)| == Hits(files, engine)
  {
    if files != [] {
      assert files == [files[0]] + files[1..];
      CollectedAppend([files[0]], files[1..], engine);
      CollectedSingle(files[0], engine);
      CollectedCount(files[1..], engine);
    }
  }

  /** On POSIX, with a non-empty `--ext` list, a file whose extension holds
      an upper-case letter is never scanned: `split_exts` lower-cases every
      entry and the comparison is exact. */
  lemma UpperCaseNeverSelected(entries: seq<Entry>, s: string, p: string)
    requires ExtList(s) != []
    requires exists i | 0 <= i < |Extension(p, Posix)| :: IsUpper(Extension(p, Posix)[i])
    ensures p !in Selected(entries, ExtList(s), Posix)
  {
    var exts := ExtList(s);
    ExtListShape(s);
    assert forall j | 0 <= j < |exts| :: forall i | 0 <= i < |exts[j]| :: !IsUpper(exts[j][i]) by {
      forall j | 0 <= j < |exts| ensures DottedLower(exts[j]) { }
    }
    PosixCaseSensitive(p, exts);
    if p in Selected(entries, exts, Posix) {
      SelectedSound(entries, exts, Posix, p);
    }
  }

  // ---------------------------------------------------------------- exit code

  /** The status `main` returns. `--help` wins over everything; a missing
      rules file is reported before a bad root; an exception thrown after
      the checks gives 1; a finished scan gives 0 whatever it found. */
  function ExitCode(help: bool, rulesExist: bool, rootIsDir: bool, threw: bool, matchCount: nat): (code: int)
    ensures code == 0 <==> help || (rulesExist && rootIsDir && !threw)
    ensures code == 2 <==> !help && !rulesExist
    ensures code == 3 <==> !help && rulesExist && !rootIsDir
    ensures code == 1 <==> !help && rulesExist && rootIsDir && threw
  {
    if help then 0
    else if !rulesExist then 2
    else if !rootIsDir then 3
    else if threw then 1
    else if matchCount > 0 then 0 else 0
  }

  // ---------------------------------------------------------------- one run

  /** What a run sees of the outside world: which paths exist and which
      are directories, what the walk of a root yields, whether the rules
      compile, what the engine reports, whether the report directory can
      be created, and the platform. */
  datatype Env = Env(
    existing: set<string>,
    directories: set<string>,
    walk: string -> seq<Entry>,
    rulesCompile: bool,
    engine: string -> seq<string>,
    reportDirCreated: bool,
    plat: Platform)

  /** The report a completed scan writes for these arguments. */
  function ScanReport(a: Args, env: Env, durationMs: nat): Report {
    var files := Selected(env.walk(a.root), ExtList(a.exts), env.plat);
    var ms := Collected(files, env.engine);
    Report(ms, ScanStats(|files|, |ms|, 0, 0, durationMs), a.rules, a.root)
  }

  /** One run of `main`: parse the options, check the rules path and the
      root, then compile, walk, scan and write both reports into
      `reports`, or at the base itself when `--report-base` is absolute.
      A failure to compile the rules or to create the report directory is
      an exception, caught as status 1 with nothing written. */
  method Run(argv: seq<string>, env: Env, durationMs: nat) returns (code: int, written: seq<(string, string)>)
    ensures var a := Options(argv);
      code == ExitCode(a.help, a.rules in env.existing, a.root in env.existing && a.root in env.directories,
                       !env.rulesCompile || !env.reportDirCreated, |ScanReport(a, env, durationMs).matches|)
    ensures written != [] <==> code == 0 && !Options(argv).help
    ensures written != [] ==>
      var a := Options(argv);
      |written| == 2
      && written[0].0 == JoinPath("reports", a.reportBase + ".json")
      && written[1].0 == JoinPath("reports", a.reportBase + ".csv")
      && (IsAbsolute(a.reportBase) ==> written[0].0 == a.reportBase + ".json" && written[1].0 == a.reportBase + ".csv")
      && written[0].1 == JsonText(ScanReport(a, env, durationMs))
      && written[1].1 == CsvText(ScanReport(a, env, durationMs))
      && ParseJson(written[0].1) == Some(ScanReport(a, env, durationMs))
      && ParseCsv(written[1].1) == Some(ScanReport(a, env, durationMs).matches)
  {
    written := [];
    var help := HasFlag(argv, "--help");
    if help {
      return 0, [];
    }
    var a := ParseArgs(argv);
    if a.rules !in env.existing {
      return 2, [];
    }
    if !(a.root in env.existing && a.root in env.directories) {
      return 3, [];
    }
    var exts := SplitExts(a.exts);
    if !env.rulesCompile {
      return 1, [];
    }
    var files := ListFiles(env.walk(a.root), exts, env.plat);
    var report := ScanAll(files, env.engine, a.rules, a.root, durationMs);
    if !env.reportDirCreated {
      return 1, [];
    }
    written := WriteAll(report, a.reportDir, a.reportBase);
    code := if report.stats.matches > 0 then 0 else 0;
  }
}
