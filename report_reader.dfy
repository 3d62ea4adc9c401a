/** Readers for the two report formats. Each undoes its writer: reading
    the JSON text gives back the whole report and reading the CSV text
    gives back its match list, so both texts carry the same matches in
    the same order. */
module ReportReader {
  import opened Wrappers
  import opened Text
  import opened Escaping
  import opened ReportFormat

  /** Strips the literal `lit` off the front of `s`. */
  function Expect(s: string, lit: string): (r: Option<string>)
    ensures r.Some? <==> lit <= s
    ensures r.Some? ==> s == lit + r.value
  {
    if lit <= s then Some(s[|lit|..]) else None
  }

  lemma ExpectLiteral(lit: string, rest: string)
    ensures Expect(lit + rest, lit) == Some(rest)
  {
    assert lit <= lit + rest;
    assert (lit + rest)[|lit|..] == rest;
  }

  /** Reads an unsigned decimal number off the front of `s`. */
  function ReadNat(s: string): (r: Option<(nat, string)>)
    ensures r.Some? ==> |r.value.1| < |s|
  {
    var k := DigitRun(s);
    if k == 0 then None else Some((DigitsValue(s[..k]), s[k..]))
  }

  lemma ReadNatDecimal(n: nat, rest: string)
    requires rest == [] || !IsDigit(rest[0])
    ensures ReadNat(Decimal(n) + rest) == Some((n, rest))
  {
    var d := Decimal(n);
    DigitRunOf(d, rest);
    assert (d + rest)[..|d|] == d;
    assert (d + rest)[|d|..] == rest;
    DigitsValueDecimal(n);
  }

  /** Reads `tag` followed by a number. */
  function ReadLabelledNat(s: string, tag: string): Option<(nat, string)> {
    var t :- Expect(s, tag);
    ReadNat(t)
  }

  /** Reads one number after each key text, in order. */
  function ReadLabelled(s: string, keys: seq<string>): (r: Option<(seq<nat>, string)>)
    ensures r.Some? ==> |r.value.0| == |keys|
  {
    if keys == [] then Some(([], s))
    else
      var a :- ReadLabelledNat(s, keys[0]);
      var b :- ReadLabelled(a.1, keys[1..]);
      Some(([a.0] + b.0, b.1))
  }

  /** No key text after the first starts with a digit, so every number
      ends where the next key begins. */
  predicate Separated(keys: seq<string>) {
    forall k | 1 <= k < |keys| :: keys[k] != [] && !IsDigit(keys[k][0])
  }

  lemma ReadLabelledStep(keys: seq<string>, n: nat, tail: string)
    requires keys != []
    requires tail == [] || !IsDigit(tail[0])
    ensures ReadLabelled(keys[0] + (Decimal(n) + tail), keys)
         == match ReadLabelled(tail, keys[1..])
            case None => None
            case Some(b) => Some(([n] + b.0, b.1))
  {
    ExpectLiteral(keys[0], Decimal(n) + tail);
    ReadNatDecimal(n, tail);
  }

  lemma {:induction false} ReadLabelledOf(keys: seq<string>, vals: seq<nat>, rest: string)
    requires |keys| == |vals| && Separated(keys)
    requires rest == [] || !IsDigit(rest[0])
    ensures ReadLabelled(Labelled(keys, vals) + rest, keys) == Some((vals, rest))
  {
    if keys == [] {
      assert Labelled(keys, vals) + rest == rest;
    } else {
      var later := Labelled(keys[1..], vals[1..]);
      var tail := later + rest;
      LabelledUnfold(keys, vals, rest);
      assert tail == [] || !IsDigit(tail[0]) by {
        if keys[1..] != [] {
          assert later[0] == keys[1][0];
        }
      }
      ReadLabelledStep(keys, vals[0], tail);
      SeparatedTail(keys);
      ReadLabelledOf(keys[1..], vals[1..], rest);
      SuffixCons(vals, 0);
    }
  }

  lemma LabelledUnfold(keys: seq<string>, vals: seq<nat>, rest: string)
    requires |keys| == |vals| && keys != []
    ensures Labelled(keys, vals) + rest
         == keys[0] + (Decimal(vals[0]) + (Labelled(keys[1..], vals[1..]) + rest))
  {
    var later := Labelled(keys[1..], vals[1..]);
    assert Labelled(keys, vals) == keys[0] + Decimal(vals[0]) + later;
    Regroup(keys[0] + Decimal(vals[0]), later, rest);
    Regroup(keys[0], Decimal(vals[0]), later + rest);
  }

  lemma SeparatedTail(keys: seq<string>)
    requires keys != [] && Separated(keys)
    ensures Separated(keys[1..])
  {
    forall k | 1 <= k < |keys[1..]| ensures keys[1..][k] != [] && !IsDigit(keys[1..][k][0]) {
      assert keys[1..][k] == keys[k + 1];
    }
  }

  /** Reads a quoted, escaped string after the fixed text `open`. */
  function ReadQuotedAfter(s: string, open: string): Option<(string, string)> {
    var t :- Expect(s, open);
    ReadQuoted(t)
  }

  lemma ReadQuotedAfterOf(open: string, v: string, close: string)
    ensures ReadQuotedAfter(Quoted(open, v, close), open) == Some((v, close))
  {
    assert Quoted(open, v, close) == open + (Escaped(v) + ['"'] + close);
    ExpectLiteral(open, Escaped(v) + ['"'] + close);
    ReadQuotedEscaped(v, close);
  }

  // ---------------------------------------------------------------- JSON

  function ParseFieldLine(line: string, key: string): Option<string> {
    var v :- ReadQuotedAfter(line, "  \"" + key + "\": \"");
    if v.1 == "," then Some(v.0) else None
  }

  lemma ParseFieldLineOf(key: string, value: string)
    ensures ParseFieldLine(FieldLine(key, value), key) == Some(value)
  {
    ReadQuotedAfterOf("  \"" + key + "\": \"", value, ",");
  }

  function ParseStatsLine(line: string): Option<ScanStats> {
    var p :- ReadLabelled(line, StatsKeys);
    var c := p.0;
    if p.1 == StatsClose then Some(ScanStats(c[0], c[1], c[2], c[3], c[4])) else None
  }

  lemma ParseStatsLineOf(st: ScanStats)
    ensures ParseStatsLine(StatsLine(st)) == Some(st)
  {
    ReadLabelledOf(StatsKeys, Counters(st), StatsClose);
  }

  /** One match object line: the match and whether a comma follows it. */
  function ParseItemLine(line: string): Option<(ScanMatch, bool)> {
    var rule :- ReadQuotedAfter(line, RuleOpen);
    var file :- ReadQuotedAfter(rule.1, FileOpen);
    var w :- Expect(file.1, "}");
    var m := ScanMatch(rule.0, file.0);
    if w == "" then Some((m, false)) else if w == "," then Some((m, true)) else None
  }

  lemma ParseItemLineOf(ms: seq<ScanMatch>, i: nat)
    requires i < |ms|
    ensures ParseItemLine(JsonItemLine(ms, i)) == Some((ms[i], i + 1 < |ms|))
  {
    var close := "}" + Separator(ms, i);
    ReadQuotedAfterOf(RuleOpen, ms[i].rule, Quoted(FileOpen, ms[i].file, close));
    ReadQuotedAfterOf(FileOpen, ms[i].file, close);
    ExpectLiteral("}", Separator(ms, i));
  }

  /** The match lines from line `i` on: a comma after each object except
      the last. */
  function ParseItems(ls: seq<string>, i: nat): Option<seq<ScanMatch>>
    decreases |ls| - i
  {
    if i >= |ls| then Some([])
    else
      var p :- ParseItemLine(ls[i]);
      if p.1 != (i + 1 < |ls|) then None
      else
        var rest :- ParseItems(ls, i + 1);
        Some([p.0] + rest)
  }

  lemma {:induction false} ParseItemsFrom(ms: seq<ScanMatch>, i: nat)
    requires i <= |ms|
    ensures ParseItems(JsonItemLines(ms), i) == Some(ms[i..])
    decreases |ms| - i
  {
    if i < |ms| {
      ParseItemLineOf(ms, i);
      ParseItemsFrom(ms, i + 1);
      SuffixCons(ms, i);
    } else {
      assert ms[i..] == [];
    }
  }

  function ParseJsonLines(ls: seq<string>): Option<Report> {
    if |ls| < 7 || ls[0] != "{" || ls[4] != "  \"matches\": [" || ls[|ls| - 2..] != JsonTailLines then None
    else
      var rulePath :- ParseFieldLine(ls[1], "rule_path");
      var rootDir :- ParseFieldLine(ls[2], "root_dir");
      var stats :- ParseStatsLine(ls[3]);
      var matches :- ParseItems(ls[5..|ls| - 2], 0);
      Some(Report(matches, stats, rulePath, rootDir))
  }

  /** Reads a JSON report text. */
  function ParseJson(text: string): Option<Report> {
    var ls :- SplitLines(text);
    ParseJsonLines(ls)
  }

  /** Reading the JSON text gives back the report it was written from:
      both paths, the five counters in their order and every match, in
      order, each object but the last followed by a comma. */
  lemma JsonRoundTrip(r: Report)
    ensures ParseJson(JsonText(r)) == Some(r)
  {
    var ls := JsonLines(r);
    var items := JsonItemLines(r.matches);
    JsonNoLineBreaks(r);
    SplitLinesOfLines(ls);
    assert ls[1] == FieldLine("rule_path", r.rulePath);
    assert ls[2] == FieldLine("root_dir", r.rootDir);
    assert ls[3] == StatsLine(r.stats);
    assert ls[5..|ls| - 2] == items;
    assert ls[|ls| - 2..] == JsonTailLines;
    ParseFieldLineOf("rule_path", r.rulePath);
    ParseFieldLineOf("root_dir", r.rootDir);
    ParseStatsLineOf(r.stats);
    ParseItemsFrom(r.matches, 0);
    assert items[0..] == items;
    assert r.matches[0..] == r.matches;
  }

  // ---------------------------------------------------------------- CSV

  function ParseCsvRow(line: string): Option<ScanMatch> {
    var rule :- ReadQuotedAfter(line, "\"");
    var file :- ReadQuotedAfter(rule.1, ",\"");
    if file.1 == "" then Some(ScanMatch(rule.0, file.0)) else None
  }

  lemma ParseCsvRowOf(m: ScanMatch)
    ensures ParseCsvRow(CsvRow(m)) == Some(m)
  {
    ReadQuotedAfterOf("\"", m.rule, Quoted(",\"", m.file, ""));
    ReadQuotedAfterOf(",\"", m.file, "");
  }

  function ParseCsvRows(ls: seq<string>): Option<seq<ScanMatch>> {
    if ls == [] then Some([])
    else
      var m :- ParseCsvRow(ls[0]);
      var rest :- ParseCsvRows(ls[1..]);
      Some([m] + rest)
  }

  lemma {:induction false} ParseCsvRowsOf(ms: seq<ScanMatch>)
    ensures ParseCsvRows(CsvRows(ms)) == Some(ms)
  {
    if ms != [] {
      ParseCsvRowOf(ms[0]);
      assert CsvRows(ms)[1..] == CsvRows(ms[1..]);
      ParseCsvRowsOf(ms[1..]);
      assert [ms[0]] + ms[1..] == ms;
    }
  }

  /** Reads a CSV report text: the header line, then one row per match. */
  function ParseCsv(text: string): Option<seq<ScanMatch>> {
    var ls :- SplitLines(text);
    if ls == [] || ls[0] != CsvHeader then None else ParseCsvRows(ls[1..])
  }

  /** Reading the CSV text gives back the match list, in order. */
  lemma CsvRoundTrip(r: Report)
    ensures ParseCsv(CsvText(r)) == Some(r.matches)
  {
    CsvNoLineBreaks(r);
    SplitLinesOfLines(CsvLines(r));
    assert CsvLines(r)[1..] == CsvRows(r.matches);
    ParseCsvRowsOf(r.matches);
  }

  /** The two texts written from one report carry the same matches in the
      same order. */
  lemma ReportsAgree(r: Report)
    ensures ParseJson(JsonText(r)).Some? && ParseCsv(CsvText(r)).Some?
    ensures ParseCsv(CsvText(r)).value == ParseJson(JsonText(r)).value.matches
  {
    JsonRoundTrip(r);
    CsvRoundTrip(r);
  }
}
