/** The records of src/report.hpp and the two report formats it writes,
    stated as the lines each writer prints, together with readers for both
    formats that recover what was written. */
module ReportFormat {
  import opened Wrappers
  import opened Text
  import opened Escaping

  /** One rule matching one file. */
  datatype ScanMatch = ScanMatch(rule: string, file: string)

  /** The five counters of a run (`uint64_t` in the source). */
  datatype ScanStats = ScanStats(filesScanned: nat, matches: nat, errors: nat, skipped: nat, durationMs: nat)

  datatype Report = Report(matches: seq<ScanMatch>, stats: ScanStats, rulePath: string, rootDir: string)

  /** `v` escaped and wrapped in double quotes, between a fixed `open`
      text and whatever `close` follows the closing quote. Every quoted
      string of both formats is printed this way. */
  function Quoted(open: string, v: string, close: string): string {
    open + Escaped(v) + ['"'] + close
  }

  /** Each counter printed as its key text followed by its `%llu` value. */
  function Labelled(keys: seq<string>, vals: seq<nat>): string
    requires |keys| == |vals|
  {
    if keys == [] then [] else keys[0] + Decimal(vals[0]) + Labelled(keys[1..], vals[1..])
  }

  // ---------------------------------------------------------------- JSON

  /** A `"key": "value",` line, the value escaped. */
  function FieldLine(key: string, value: string): string {
    Quoted("  \"" + key + "\": \"", value, ",")
  }

  /** The key texts of the `"stats"` line, in their fixed order. */
  const StatsKeys: seq<string> := ["  \"stats\": {\"files_scanned\": ", ", \"matches\": ",
                                  ", \"errors\": ", ", \"skipped\": ", ", \"duration_ms\": "]
  const StatsClose: string := "},"

  function Counters(st: ScanStats): seq<nat> {
    [st.filesScanned, st.matches, st.errors, st.skipped, st.durationMs]
  }

  /** The `"stats"` line: the five counters, in their fixed order. */
  function StatsLine(st: ScanStats): string {
    Labelled(StatsKeys, Counters(st)) + StatsClose
  }

  /** The five lines before the first match object. */
  function JsonHeadLines(r: Report): seq<string> {
    ["{", FieldLine("rule_path", r.rulePath), FieldLine("root_dir", r.rootDir),
     StatsLine(r.stats), "  \"matches\": ["]
  }

  const RuleOpen: string := "    {\"rule\": \""
  const FileOpen: string := ", \"file\": \""

  /** What follows match `i`'s object: a comma after every object but the last. */
  function Separator(ms: seq<ScanMatch>, i: nat): string {
    if i + 1 == |ms| then "" else ","
  }

  /** The line for match `i`: `{"rule": "...", "file": "..."}` and its separator. */
  function JsonItemLine(ms: seq<ScanMatch>, i: nat): string
    requires i < |ms|
  {
    Quoted(RuleOpen, ms[i].rule, Quoted(FileOpen, ms[i].file, "}" + Separator(ms, i)))
  }

  function JsonItemLines(ms: seq<ScanMatch>): (ls: seq<string>)
    ensures |ls| == |ms|
  {
    seq(|ms|, i requires 0 <= i < |ms| => JsonItemLine(ms, i))
  }

  const JsonTailLines: seq<string> := ["  ]", "}"]

  function JsonLines(r: Report): seq<string> {
    JsonHeadLines(r) + JsonItemLines(r.matches) + JsonTailLines
  }

  /** The text `Report::write_json` writes. */
  function JsonText(r: Report): string {
    Lines(JsonLines(r))
  }

  // ---------------------------------------------------------------- CSV

  const CsvHeader: string := "rule,file"

  /** A row: both fields escaped and quoted, separated by a comma. */
  function CsvRow(m: ScanMatch): string {
    Quoted("\"", m.rule, Quoted(",\"", m.file, ""))
  }

  function CsvRows(ms: seq<ScanMatch>): (rows: seq<string>)
    ensures |rows| == |ms|
  {
    seq(|ms|, i requires 0 <= i < |ms| => CsvRow(ms[i]))
  }

  function CsvLines(r: Report): seq<string> {
    [CsvHeader] + CsvRows(r.matches)
  }

  /** The text `Report::write_csv` writes. */
  function CsvText(r: Report): string {
    Lines(CsvLines(r))
  }

  // ---------------------------------------------------------------- line counts

  lemma QuotedNoBreak(open: string, v: string, close: string)
    requires '\n' !in open && '\n' !in close
    ensures '\n' !in Quoted(open, v, close)
  {
    EscapedNoNewline(v);
  }

  lemma {:induction false} LabelledNoBreak(keys: seq<string>, vals: seq<nat>)
    requires |keys| == |vals|
    requires forall k | 0 <= k < |keys| :: '\n' !in keys[k]
    ensures '\n' !in Labelled(keys, vals)
  {
    if keys != [] {
      LabelledNoBreak(keys[1..], vals[1..]);
      assert '\n' !in Decimal(vals[0]) by {
        forall j | 0 <= j < |Decimal(vals[0])| ensures Decimal(vals[0])[j] != '\n' {
          assert IsDigit(Decimal(vals[0])[j]);
        }
      }
    }
  }

  lemma CsvNoLineBreaks(r: Report)
    ensures NoLineBreaks(CsvLines(r))
  {
    forall i | 0 <= i < |CsvLines(r)| ensures '\n' !in CsvLines(r)[i] {
      if i > 0 {
        var m := r.matches[i - 1];
        QuotedNoBreak(",\"", m.file, "");
        QuotedNoBreak("\"", m.rule, Quoted(",\"", m.file, ""));
      }
    }
  }

  /** The CSV text is the header line plus exactly one line per match. */
  lemma CsvLineCount(r: Report)
    ensures CountChar(CsvText(r), '\n') == |r.matches| + 1
  {
    CsvNoLineBreaks(r);
    LinesCount(CsvLines(r));
  }

  lemma FieldLineNoBreak(key: string, value: string)
    requires '\n' !in key
    ensures '\n' !in FieldLine(key, value)
  {
    QuotedNoBreak("  \"" + key + "\": \"", value, ",");
  }

  lemma StatsLineNoBreak(st: ScanStats)
    ensures '\n' !in StatsLine(st)
  {
    LabelledNoBreak(StatsKeys, Counters(st));
  }

  lemma JsonHeadNoLineBreaks(r: Report)
    ensures NoLineBreaks(JsonHeadLines(r))
  {
    FieldLineNoBreak("rule_path", r.rulePath);
    FieldLineNoBreak("root_dir", r.rootDir);
    StatsLineNoBreak(r.stats);
  }

  lemma JsonItemsNoLineBreaks(ms: seq<ScanMatch>)
    ensures NoLineBreaks(JsonItemLines(ms))
  {
    forall i | 0 <= i < |ms| ensures '\n' !in JsonItemLines(ms)[i] {
      var close := "}" + Separator(ms, i);
      QuotedNoBreak(FileOpen, ms[i].file, close);
      QuotedNoBreak(RuleOpen, ms[i].rule, Quoted(FileOpen, ms[i].file, close));
    }
  }

  lemma JsonNoLineBreaks(r: Report)
    ensures NoLineBreaks(JsonLines(r))
  {
    JsonHeadNoLineBreaks(r);
    JsonItemsNoLineBreaks(r.matches);
    NoLineBreaksAppend(JsonHeadLines(r), JsonItemLines(r.matches));
    NoLineBreaksAppend(JsonHeadLines(r) + JsonItemLines(r.matches), JsonTailLines);
  }

  /** The JSON text has five lines before the matches, one line per match
      and two closing lines. */
  lemma JsonLineCount(r: Report)
    ensures CountChar(JsonText(r), '\n') == |r.matches| + 7
  {
    JsonNoLineBreaks(r);
    LinesCount(JsonLines(r));
  }
}
