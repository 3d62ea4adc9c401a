# YARA scan driver: a Dafny model

This project models the deterministic part of a small command-line driver
that walks a directory tree, hands each selected file to a YARA rule engine
and writes what matched as a JSON report and a CSV report. It covers:

- the report records (`ScanMatch`, `ScanStats`, `Report`), the byte-wise
  `escape`, and the two writers `write_json` and `write_csv`, each proved
  equal to a text-valued specification which a reader function inverts
  (`ReportFormat`, `ReportReader`, `ReportWriter`, `Escaping`);
- the option handling of `main`: `has_prefix`, `parse_flag`, `has_flag`,
  `split_exts` and the strict `std::stoll` parse and clamp of
  `--timeout-ms` (`Cli`);
- `match_ext` on both platforms, with the `std::filesystem::path::extension`
  rule it relies on, and the filtering loop of `list_files` over an abstract
  sequence of directory entries (`Traverse`);
- the scan loop that folds the engine's answers into the report, the exit
  status, and one whole run from `argv` to the two report files (`Scanner`).

The engine is a total function from a path to the sequence of ids of the
rules that matched it. Existence and directory tests, the directory walk,
rule compilation and the creation of the report directory are inputs of
`Scanner.Run`. The duration is a parameter, because it comes from the clock.

Behaviour worth noting, where the code differs from what a reader might expect:

- On POSIX, `match_ext` compares extensions byte for byte, so `.EXE` does
  not match `.exe`. Only the `_WIN32` branch ignores case, although a
  case-insensitive filter might be expected on every platform.
- `--report-dir` appears in the usage text but is never parsed. The report
  directory is always `reports`; an absolute `--report-base` puts both
  files at the base itself.
- The scan loop never increments `errors` or `skipped`. Engine scan errors
  are logged and swallowed inside the engine wrapper
  (src/yara_scan.cpp:50-53), so a failing file counts as scanned with no
  matches.
- `match_ext` is monotone in the list only from a non-empty list. The empty
  list accepts every path, and adding an entry to it narrows the filter.

## Model

| member | source | states |
|---|---|---|
| Escaping.Escape | src/report.hpp:64-77 | the loop produces exactly `Escaped(s)`, the character-by-character escape |
| Escaping.EscapeCharShape | src/report.hpp:67-74 | backslash, quote, newline, CR and tab become two-character sequences starting with a backslash; every other character is copied |
| Escaping.EscapedAppend | src/report.hpp:66-76 | escaping distributes over concatenation |
| Escaping.EscapedIdentity | src/report.hpp:66-76 | a string without the five special characters escapes to itself |
| Escaping.EscapedLength | src/report.hpp:66-74 | the escaped length is the input length plus the number of special characters |
| Escaping.EscapedNoControl | src/report.hpp:70-72 | the output holds no raw newline, CR or tab |
| Escaping.EscapedNoNewline | src/report.hpp:70 | the output holds no newline, so one escaped field never breaks a report line |
| Escaping.ReadQuotedEscaped | src/report.hpp:64-77 | reading an escaped string up to the closing quote gives back the string and what follows |
| Escaping.UnescapeEscaped | src/report.hpp:64-77 | unescaping recovers the input exactly |
| Escaping.EscapedInjective | src/report.hpp:64-77 | two strings with the same escape are equal |
| ReportFormat.CsvLineCount | src/report.hpp:53-61 | the CSV text has exactly one newline per match plus one for the header |
| ReportFormat.JsonLineCount | src/report.hpp:34-51 | the JSON text has exactly one line per match plus seven fixed lines |
| ReportFormat.JsonNoLineBreaks | src/report.hpp:37-50 | no line of the JSON text holds a newline of its own, so the text splits back into the same lines |
| ReportFormat.CsvNoLineBreaks | src/report.hpp:56-59 | no CSV line holds a newline of its own |
| ReportReader.ParseStatsLineOf | src/report.hpp:40-42 | the stats line gives back the five counters, in the order files_scanned, matches, errors, skipped, duration_ms |
| ReportReader.ParseItemLineOf | src/report.hpp:44-48 | item `i` of the array gives back match `i`, followed by a comma exactly when it is not the last |
| ReportReader.ParseItemsFrom | src/report.hpp:44-48 | the array lines give back the match list, in list order |
| ReportReader.ParseFieldLineOf | src/report.hpp:38-39 | the `rule_path` and `root_dir` lines give back their escaped values |
| ReportReader.JsonRoundTrip | src/report.hpp:34-51 | parsing the JSON text gives back the whole report |
| ReportReader.ParseCsvRowOf | src/report.hpp:58 | one CSV row gives back its match |
| ReportReader.CsvRoundTrip | src/report.hpp:53-61 | parsing the CSV text gives back the match list |
| ReportReader.ReportsAgree | src/report.hpp:28-32 | the JSON and CSV texts of one report carry the same ordered match list |
| ReportWriter.WriteJsonItems | src/report.hpp:44-48 | the item loop emits exactly the specified item lines, with the comma after every item but the last |
| ReportWriter.WriteJson | src/report.hpp:34-51 | the writer emits exactly `JsonText(r)` |
| ReportWriter.WriteCsvRows | src/report.hpp:57-59 | the row loop emits one escaped, quoted row per match, in order |
| ReportWriter.FormatCsvRow | src/report.hpp:58 | one row is the escaped rule and file, each quoted, separated by a comma |
| ReportWriter.WriteCsv | src/report.hpp:53-61 | the writer emits exactly `CsvText(r)` |
| ReportWriter.JoinPath | src/report.hpp:30-31 | an absolute file name replaces the directory; otherwise the path starts with the directory, adds a separator only when the directory is non-empty and lacks one, and ends in the file name |
| ReportWriter.WriteAll | src/report.hpp:28-32 | two files, JSON first and CSV second, named by joining `<base>.json` and `<base>.csv` to the directory (so an absolute base names the files itself), holding exactly `JsonText` and `CsvText` of the report, and both parse back to the report |
| Cli.HasPrefix | src/main.cpp:38 | true exactly when `p` is an initial segment of `s` |
| Cli.FlagValueFirstHit | src/main.cpp:40-47 | the first argument from index 1 on that is `name=V` or a bare `name` with a successor decides the value; without one, the default; a trailing bare `name` is skipped |
| Cli.ParseFlag | src/main.cpp:40-47 | the loop with early return yields `FlagValue`, the first-hit value |
| Cli.HasFlag | src/main.cpp:49-52 | true exactly when some argument from index 1 on equals the name |
| Cli.TrimPadding | src/main.cpp:62-64 | leading and trailing spaces and tabs are removed, and nothing else |
| Cli.TrimBlank | src/main.cpp:64 | a token of only spaces and tabs trims to empty |
| Cli.SplitExts | src/main.cpp:54-74 | the loop yields `ExtList(s)`, the kept, normalised comma-separated tokens |
| Cli.NextToken | src/main.cpp:59-71 | one round of the loop consumes one token and keeps the rest of the list unchanged |
| Cli.FindComma | src/main.cpp:59 | the search loop returns `FindFrom(s, ',', from)`, the first comma at or after the position, or none |
| Cli.NormalizeToken | src/main.cpp:62-68 | a raw token becomes its trimmed, dotted, lower-cased form, or nothing when blank |
| Cli.ExtListShape | src/main.cpp:56-68 | every entry is non-empty, starts with a dot and holds no upper-case letter; an empty argument gives an empty list |
| Cli.ExtListCount | src/main.cpp:58-72 | at most one entry more than there are commas |
| Cli.ExtListJoin | src/main.cpp:58-72 | tokens keep their order: the list of `a,b` is the list of `a` followed by the list of `b` |
| Cli.ExtListToken | src/main.cpp:60-69 | a comma-free argument gives its own trimmed, normalised token, or nothing when blank |
| Cli.TokensCount | src/main.cpp:58-72 | the argument splits into one token more than it has commas |
| Cli.ParseLongLong | src/main.cpp:87-88 | a parsed value lies in the `long long` range and the index stops right after the last digit |
| Cli.ParseTimeout | src/main.cpp:84-96 | the parse, the trailing-text check and the clamp yield `EffectiveTimeout(raw)`, which lies in [0, 600000] |
| Cli.TimeoutOfNumber | src/main.cpp:86-93 | a decimal up to 600000 is taken as is; a larger one within `long long` is capped at 600000; one beyond `long long` keeps the default 10000 |
| Cli.TimeoutOfNegative | src/main.cpp:90 | a negative number becomes 0 |
| Cli.TimeoutTrailing | src/main.cpp:89 | a number followed by other text keeps the default 10000 |
| Cli.TimeoutLeadingSpace | src/main.cpp:88 | leading white space is skipped, as `std::stoll` does |
| Cli.TimeoutNoDigits | src/main.cpp:93-95 | text without any digit keeps the default 10000 |
| Cli.Options | src/main.cpp:19-29 | the timeout always lies in [0, 600000], so the second clamp at src/main.cpp:118-121 never fires; the report directory is always `reports` |
| Cli.ParseArgs | src/main.cpp:78-99 | the options are the first-hit flag values with the declared defaults, the effective timeout and the two switches |
| Traverse.FileName | src/traverse.cpp:8 | the file name is the suffix of the path after its last separator, `\` also separating on Windows |
| Traverse.NameExtension | src/traverse.cpp:8 | an extension is empty or a dot followed by no other dot, and is a proper suffix of the name |
| Traverse.NameExtensionOf | src/traverse.cpp:8 | `stem.ext` with a non-empty stem has the extension `.ext`, taken from the last dot |
| Traverse.ExtensionOfName | src/traverse.cpp:8 | only the file name counts: a dot in a directory name is never an extension |
| Traverse.HiddenNameNoExtension | src/traverse.cpp:8 | a name whose only dot leads it, such as `.bashrc`, has no extension |
| Traverse.NoDotNoExtension | src/traverse.cpp:8 | a name without a dot has no extension |
| Traverse.DotNamesNoExtension | src/traverse.cpp:8 | `.` and `..` have no extension |
| Traverse.EqualIgnoringCase | src/traverse.cpp:9-12 | equal lengths and equal under `tolower` at every position |
| Traverse.MatchExt | src/traverse.cpp:6-18 | true exactly when the list is empty or some entry equals the extension, byte for byte on POSIX and ignoring ASCII case on Windows |
| Traverse.SearchExt | src/traverse.cpp:10-17 | the search over the list returns true exactly when some entry equals the extension under the platform's comparison |
| Traverse.WindowsSameExtLower | src/traverse.cpp:9-12 | the Windows comparison is equality of the lower-cased strings |
| Traverse.PosixCaseSensitive | src/traverse.cpp:15 | on POSIX an extension with an upper-case letter matches no list of lower-case entries |
| Traverse.WindowsCaseInsensitive | src/traverse.cpp:9-12 | on Windows a lower-cased entry matches the extension in any case |
| Traverse.ExtAllowedMonotone | src/traverse.cpp:7-17 | adding entries to a non-empty list never turns a match into a non-match |
| Traverse.ListFiles | src/traverse.cpp:20-33 | the loop yields `Selected`, the paths of the entries that qualify, in walk order |
| Traverse.SelectedAppend | src/traverse.cpp:25-31 | selection keeps the walk order and works entry by entry |
| Traverse.SelectedSound | src/traverse.cpp:26-30 | every listed path comes from an error-free regular entry that passes the filter |
| Traverse.SelectedComplete | src/traverse.cpp:25-31 | every error-free regular entry that passes the filter is listed |
| Scanner.ScanAll | src/main.cpp:135-150 | the match list is the files' engine answers in order; files_scanned is the number of files, the match counter equals the list length, and errors and skipped stay 0 |
| Scanner.CollectedAppend | src/main.cpp:135-150 | matches are grouped by file, in scan order |
| Scanner.CollectedSingle | src/main.cpp:142-143 | one file contributes one match per rule id, in the engine's order, each with that file's path |
| Scanner.CollectedMember | src/main.cpp:135-150 | a match is reported exactly when its file was scanned and the engine named its rule for that file |
| Scanner.CollectedCount | src/main.cpp:142-144 | the number of matches is the sum of the engine's answer lengths |
| Scanner.UpperCaseNeverSelected | src/traverse.cpp:15 | on POSIX, with a non-empty `--ext`, a file whose extension has an upper-case letter is never scanned |
| Scanner.ExitCode | src/main.cpp:78-173 | 0 for help (lines 78-79) or a finished scan whatever it found (line 169), 2 for missing rules, checked first (lines 108-112), 3 for a bad root (lines 113-117), 1 for an exception (lines 170-173) |
| Scanner.Run | src/main.cpp:76-175 | the status is `ExitCode` of the run's facts; reports are written exactly on a finished scan, at `reports/<base>.json` and `reports/<base>.csv`, or at `<base>.json` and `<base>.csv` when the base is absolute; they hold exactly `JsonText` and `CsvText` of the report of the selected files and parse back to it |

## Left out

- The logger (src/log.hpp) is not modelled. This covers opening the log, appending records, the console echo and its timestamps. Its `open` may create directories outside the `try` block in `main`.
- `fs::exists` and `fs::is_directory` also run outside the `try` block (src/main.cpp:108 and 113). On an OS error other than "not found" they throw, and the process ends in `std::terminate` instead of returning 2, 3 or 1. The boolean inputs `existing` and `directories` of `Run` cannot express this.
- Console output is not modelled: the usage text, the `[MATCH]` lines, the error messages and the summary.
- Run models a failure to compile the rules or to create the report directory as an exception. The other libyara failures are left out.
- The per-file timeout is not passed to the engine, because the engine is an abstract function.
- WriteAll: a failing `fopen` makes `write_json` and `write_csv` return without writing. The model always produces both texts, and `main` still returns 0 in that case.
- WriteJson and WriteCsv model `%s` as copying the whole escaped string. A NUL byte would cut the C output short, but neither paths nor YARA rule identifiers can hold one.
- ScanAll: the counters are unbounded `nat`, so the 64-bit wrap-around of `uint64_t` is not modelled.
- The duration is an input, because it is read from the steady clock.
- The real `recursive_directory_iterator` is replaced by a sequence of entries. Each entry records whether the step that reached it failed and what kind of file it is, including a failing `is_regular_file` check. Permission handling is not modelled.
- ListFiles: the entry sequence over-approximates the walk. A failed `increment(ec)` turns the real iterator into the end iterator, so the program stops at the first failed step, while the model also accepts entries after a failed step and skips only that one.
- JoinPath models the POSIX `operator/`, including an absolute right operand replacing the directory. Windows root names, drive letters and backslash separators are not modelled.
- FileName treats only `/` as a separator on POSIX, and both `/` and `\` on Windows. Root names such as `C:` are not modelled.
- ParseArgs evaluates every flag. `main` returns right after `--help`, but Run checks for help before calling ParseArgs, so the observable behaviour is the same.
- `tolower` is modelled in the "C" locale: only `A`-`Z` change.
- Strings are sequences of characters. The byte-level `unsigned char` casts are modelled as character comparisons.
