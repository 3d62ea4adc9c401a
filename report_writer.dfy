/** The writers of src/report.hpp as loops that print a report line by
    line, each proved to print exactly the text its format defines. */
module ReportWriter {
  import opened Wrappers
  import opened Text
  import opened Escaping
  import opened ReportFormat
  import opened ReportReader

  /** A run of `fprintf` calls, one per line, each ending in a line break. */
  method PrintLines(ls: seq<string>) returns (out: string)
    ensures out == Lines(ls)
  {
    out := [];
    for k := 0 to |ls|
      invariant out == Lines(ls[..k])
    {
      LinesSnoc(ls[..k], ls[k]);
      assert ls[..k + 1] == ls[..k] + [ls[k]];
      out := out + ls[k] + "\n";
    }
    assert ls[..|ls|] == ls;
  }

  /** The loop of `Report::write_json` over the matches: one object line
      per match, in list order, a comma after all but the last. */
  method WriteJsonItems(ms: seq<ScanMatch>) returns (out: string)
    ensures out == Lines(JsonItemLines(ms))
  {
    out := [];
    for i := 0 to |ms|
      invariant out == Lines(JsonItemLines(ms)[..i])
    {
      var rule := Escape(ms[i].rule);
      var file := Escape(ms[i].file);
      var sep := if i + 1 == |ms| then "" else ",";
      var line := RuleOpen + rule + ['"'] + (FileOpen + file + ['"'] + ("}" + sep));
      assert line == JsonItemLine(ms, i);
      LinesSnoc(JsonItemLines(ms)[..i], line);
      assert JsonItemLines(ms)[..i + 1] == JsonItemLines(ms)[..i] + [line];
      out := out + line + "\n";
    }
    assert JsonItemLines(ms)[..|ms|] == JsonItemLines(ms);
  }

  /** `Report::write_json`: the header lines, the match lines, then the
      closing lines. */
  method WriteJson(r: Report) returns (out: string)
    ensures out == JsonText(r)
  {
    var rulePath := Escape(r.rulePath);
    var rootDir := Escape(r.rootDir);
    var headLines := ["{",
                      "  \"" + "rule_path" + "\": \"" + rulePath + ['"'] + ",",
                      "  \"" + "root_dir" + "\": \"" + rootDir + ['"'] + ",",
                      StatsLine(r.stats),
                      "  \"matches\": ["];
    assert headLines == JsonHeadLines(r);
    var head := PrintLines(headLines);
    var items := WriteJsonItems(r.matches);
    var tail := PrintLines(JsonTailLines);
    out := head + items + tail;
    LinesAppend(JsonHeadLines(r), JsonItemLines(r.matches));
    LinesAppend(JsonHeadLines(r) + JsonItemLines(r.matches), JsonTailLines);
  }

  /** The loop of `Report::write_csv` over the matches: one row per
      match, in list order. */
  method WriteCsvRows(ms: seq<ScanMatch>) returns (out: string)
    ensures out == Lines(CsvRows(ms))
  {
    out := [];
    for i := 0 to |ms|
      invariant out == Lines(CsvRows(ms)[..i])
    {
      var line := FormatCsvRow(ms[i]);
      LinesSnoc(CsvRows(ms)[..i], line);
      assert CsvRows(ms)[..i + 1] == CsvRows(ms)[..i] + [line];
      out := out + line + "\n";
    }
    assert CsvRows(ms)[..|ms|] == CsvRows(ms);
  }

  /** One row: both fields escaped and quoted, separated by a comma. */
  method FormatCsvRow(m: ScanMatch) returns (line: string)
    ensures line == CsvRow(m)
  {
    var rule := Escape(m.rule);
    var file := Escape(m.file);
    line := "\"" + rule + ['"'] + (",\"" + file + ['"'] + "");
  }

  /** `Report::write_csv`: the header line, then the rows. */
  method WriteCsv(r: Report) returns (out: string)
    ensures out == CsvText(r)
  {
    var header := PrintLines([CsvHeader]);
    var rows := WriteCsvRows(r.matches);
    out := header + rows;
    LinesAppend([CsvHeader], CsvRows(r.matches));
  }

  /** `out_dir / name` on POSIX: an absolute `name` replaces the
      directory; otherwise a separator is added only when the directory is
      non-empty and does not already end in one. */
  function JoinPath(dir: string, name: string): (p: string)
    ensures |p| >= |name| && p[|p| - |name|..] == name
    ensures IsAbsolute(name) ==> p == name
    ensures !IsAbsolute(name) ==> dir <= p && |p| <= |dir| + 1 + |name|
    ensures !IsAbsolute(name) && dir != [] && dir[|dir| - 1] != '/' ==> |p| > |dir| && p[|dir|] == '/'
  {
    if IsAbsolute(name) then name
    else if dir == [] || dir[|dir| - 1] == '/' then dir + name
    else dir + "/" + name
  }

  /** A POSIX path with a root directory. */
  predicate IsAbsolute(p: string) {
    p != [] && p[0] == '/'
  }

  /** `Report::write_all`: the JSON file, then the CSV file, both named
      after `base` inside `outDir`. Each file reads back as what it was
      written from, so the two carry the same matches in the same order. */
  method WriteAll(r: Report, outDir: string, base: string) returns (files: seq<(string, string)>)
    ensures |files| == 2
    ensures files[0].0 == JoinPath(outDir, base + ".json") && files[0].1 == JsonText(r)
    ensures files[1].0 == JoinPath(outDir, base + ".csv") && files[1].1 == CsvText(r)
    ensures ParseJson(files[0].1) == Some(r)
    ensures ParseCsv(files[1].1) == Some(r.matches)
  {
    var json := WriteJson(r);
    var csv := WriteCsv(r);
    JsonRoundTrip(r);
    CsvRoundTrip(r);
    files := [(JoinPath(outDir, base + ".json"), json), (JoinPath(outDir, base + ".csv"), csv)];
  }
}
