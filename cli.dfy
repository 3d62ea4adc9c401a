/** The command line of src/main.cpp: flag lookup over `argv`, the
    extension list of `--ext`, the `--timeout-ms` parse and clamp, and the
    resulting `Args`. */
module Cli {
  import opened Wrappers
  import opened Text

  // ---------------------------------------------------------------- flags

  /** `has_prefix`: `s.rfind(p, 0) == 0`. */
  function HasPrefix(s: string, p: string): (b: bool)
    ensures b <==> |p| <= |s| && forall i | 0 <= i < |p| :: s[i] == p[i]
  {
    p <= s
  }

  /** Argument `i` (never the program name) settles flag `name`: it is
      `name=V`, or it is exactly `name` and another argument follows. */
  predicate Hit(argv: seq<string>, name: string, i: nat) {
    1 <= i < |argv| && (HasPrefix(argv[i], name + "=") || (argv[i] == name && i + 1 < |argv|))
  }

  /** The value a hit gives: what follows `name=`, or the next argument. */
  function HitValue(argv: seq<string>, name: string, i: nat): string
    requires Hit(argv, name, i)
  {
    if HasPrefix(argv[i], name + "=") then argv[i][|name| + 1..] else argv[i + 1]
  }

  /** The value of flag `name` looking from argument `i` on. */
  function FlagFrom(argv: seq<string>, name: string, defval: string, i: nat): string
    requires i >= 1
    decreases |argv| - i
  {
    if i >= |argv| then defval
    else if Hit(argv, name, i) then HitValue(argv, name, i)
    else FlagFrom(argv, name, defval, i + 1)
  }

  function FlagValue(argv: seq<string>, name: string, defval: string): string {
    FlagFrom(argv, name, defval, 1)
  }

  /** With no hit from `from` on, the flag keeps its default. A bare `name`
      as the last argument is no hit, so it is skipped. */
  lemma {:induction false} FlagFromNoHit(argv: seq<string>, name: string, defval: string, from: nat)
    requires from >= 1
    requires forall j | from <= j < |argv| :: !Hit(argv, name, j)
    ensures FlagFrom(argv, name, defval, from) == defval
    decreases |argv| - from
  {
    if from < |argv| {
      FlagFromNoHit(argv, name, defval, from + 1);
    }
  }

  /** The first hit from `from` on decides the flag's value. */
  lemma {:induction false} FlagFromAt(argv: seq<string>, name: string, defval: string, from: nat, i: nat)
    requires 1 <= from <= i && Hit(argv, name, i)
    requires forall j | from <= j < i :: !Hit(argv, name, j)
    ensures FlagFrom(argv, name, defval, from) == HitValue(argv, name, i)
    decreases i - from
  {
    if from < i {
      assert !Hit(argv, name, from);
      FlagFromAt(argv, name, defval, from + 1, i);
    }
  }

  /** The first hit after the program name decides the flag's value; with
      no hit it is the default. */
  lemma FlagValueFirstHit(argv: seq<string>, name: string, defval: string)
    ensures (forall j | 1 <= j < |argv| :: !Hit(argv, name, j)) ==> FlagValue(argv, name, defval) == defval
    ensures forall i | 1 <= i < |argv| ::
              Hit(argv, name, i) && (forall j | 1 <= j < i :: !Hit(argv, name, j)) ==>
                FlagValue(argv, name, defval) == HitValue(argv, name, i)
  {
    if forall j | 1 <= j < |argv| :: !Hit(argv, name, j) {
      FlagFromNoHit(argv, name, defval, 1);
    }
    forall i | 1 <= i < |argv| && Hit(argv, name, i) && (forall j | 1 <= j < i :: !Hit(argv, name, j))
      ensures FlagValue(argv, name, defval) == HitValue(argv, name, i)
    {
      FlagFromAt(argv, name, defval, 1, i);
    }
  }

  /** `parse_flag`: a scan of the arguments after the program name that
      returns at the first hit. */
  method ParseFlag(argv: seq<string>, name: string, defval: string) returns (v: string)
    ensures v == FlagValue(argv, name, defval)
  {
    var i := 1;
    while i < |argv|
      invariant i >= 1
      invariant FlagValue(argv, name, defval) == FlagFrom(argv, name, defval, i)
      decreases |argv| - i
    {
      var arg := argv[i];
      if HasPrefix(arg, name + "=") {
        return arg[|name| + 1..];
      }
      if arg == name && i + 1 < |argv| {
        return argv[i + 1];
      }
      i := i + 1;
    }
    return defval;
  }

  /** Some argument after the program name is exactly `name`. */
  predicate HasArg(argv: seq<string>, name: string) {
    exists i | 1 <= i < |argv| :: argv[i] == name
  }

  /** `has_flag`. */
  method HasFlag(argv: seq<string>, name: string) returns (b: bool)
    ensures b <==> HasArg(argv, name)
  {
    var i := 1;
    while i < |argv|
      invariant i >= 1
      invariant forall j | 1 <= j < i && j < |argv| :: argv[j] != name
      decreases |argv| - i
    {
      if argv[i] == name {
        return true;
      }
      i := i + 1;
    }
    return false;
  }

  // ---------------------------------------------------------------- split_exts

  predicate IsBlank(c: char) {
    c == ' ' || c == '\t'
  }

  predicate AllBlank(s: string) {
    forall i | 0 <= i < |s| :: IsBlank(s[i])
  }

  function TrimStart(t: string): (r: string)
    ensures |r| <= |t|
  {
    if t != [] && IsBlank(t[0]) then TrimStart(t[1..]) else t
  }

  function TrimEnd(t: string): (r: string)
    ensures |r| <= |t|
  {
    if t != [] && IsBlank(t[|t| - 1]) then TrimEnd(t[..|t| - 1]) else t
  }

  /** The token between its first and its last character that is neither a
      space nor a tab (`find_first_not_of` and `find_last_not_of`); see
      `TrimPadding` and `TrimBlank`. */
  function Trim(t: string): (r: string)
    ensures |r| <= |t|
  {
    TrimEnd(TrimStart(t))
  }

  /** A token of blanks only trims to nothing. */
  lemma TrimBlank(t: string)
    requires AllBlank(t)
    ensures Trim(t) == []
  {
    TrimStartOf(t, []);
    assert t + [] == t;
  }

  /** Trimming removes exactly the blank padding around a token. */
  lemma TrimPadding(pre: string, core: string, post: string)
    requires AllBlank(pre) && AllBlank(post)
    requires core != [] && !IsBlank(core[0]) && !IsBlank(core[|core| - 1])
    ensures Trim(pre + core + post) == core
  {
    TrimStartOf(pre, core + post);
    assert pre + core + post == pre + (core + post);
    TrimEndOf(core, post);
  }

  lemma {:induction false} TrimStartOf(pre: string, rest: string)
    requires AllBlank(pre) && (rest == [] || !IsBlank(rest[0]))
    ensures TrimStart(pre + rest) == rest
  {
    if pre != [] {
      assert (pre + rest)[1..] == pre[1..] + rest;
      TrimStartOf(pre[1..], rest);
    } else {
      assert pre + rest == rest;
    }
  }

  lemma {:induction false} TrimEndOf(rest: string, post: string)
    requires AllBlank(post) && (rest == [] || !IsBlank(rest[|rest| - 1]))
    ensures TrimEnd(rest + post) == rest
    decreases |post|
  {
    if post != [] {
      var n := |post| - 1;
      assert (rest + post)[..|rest + post| - 1] == rest + post[..n];
      TrimEndOf(rest, post[..n]);
    } else {
      assert rest + post == rest;
    }
  }

  /** What every entry of the extension list looks like. */
  predicate DottedLower(e: string) {
    e != [] && e[0] == '.' && forall i | 0 <= i < |e| :: !IsUpper(e[i])
  }

  /** A kept token: a dot put in front when missing, then lower-cased. */
  function Normalize(tok: string): (e: string)
    requires tok != []
    ensures DottedLower(e)
    ensures |e| == |tok| || |e| == |tok| + 1
  {
    LowerAll(if tok[0] == '.' then tok else ['.'] + tok)
  }

  /** The comma-separated tokens of `s`: one more than there are commas.
      The loop of `split_exts` makes no token after a final comma nor for an
      empty argument, but the token it skips is empty and so kept by
      nobody. */
  function Tokens(s: string): (ts: seq<string>)
    ensures |ts| >= 1
  {
    if s == [] then [[]]
    else
      var rest := Tokens(s[1..]);
      if s[0] == ',' then [[]] + rest else [[s[0]] + rest[0]] + rest[1..]
  }

  /** What one token contributes: nothing when it is blank, otherwise the
      trimmed token normalised. */
  function KeepToken(t: string): (out: seq<string>)
    ensures |out| <= 1
    ensures out != [] ==> DottedLower(out[0])
  {
    var tok := Trim(t);
    if tok == [] then [] else [Normalize(tok)]
  }

  /** The tokens that are not blank, trimmed and normalised, in order. */
  function Kept(toks: seq<string>): (out: seq<string>)
    ensures |out| <= |toks|
  {
    if toks == [] then [] else KeepToken(toks[0]) + Kept(toks[1..])
  }

  /** What `split_exts` returns for `s`. */
  function ExtList(s: string): seq<string> {
    Kept(Tokens(s))
  }

  lemma {:induction false} KeptAppend(a: seq<string>, b: seq<string>)
    ensures Kept(a + b) == Kept(a) + Kept(b)
  {
    if a != [] {
      assert (a + b)[1..] == a[1..] + b;
      KeptAppend(a[1..], b);
    } else {
      assert a + b == b;
    }
  }

  /** `split_exts`: a scan from comma to comma that trims each token,
      drops it when blank, and otherwise adds a missing leading dot and
      lower-cases it. */
  method SplitExts(s: string) returns (out: seq<string>)
    ensures out == ExtList(s)
  {
    out := [];
    if |s| == 0 {
      return;
    }
    var pos := 0;
    assert s[pos..] == s;
    while pos < |s|
      invariant pos <= |s|
      invariant out + Kept(Tokens(s[pos..])) == ExtList(s)
      decreases |s| - pos
    {
      var kept, next, last := NextToken(s, pos);
      ghost var done := out;
      out := out + kept;
      if last {
        return;
      }
      Regroup(done, kept, Kept(Tokens(s[next..])));
      pos := next;
    }
    KeptNothing();
    assert s[pos..] == [];
  }

  /** A trailing comma leaves an empty token behind, which is dropped. */
  lemma KeptNothing()
    ensures Kept(Tokens([])) == []
  {
    assert KeepToken([]) == [];
  }

  /** One round of the loop in `SplitExts`: the token that starts at `pos`,
      trimmed and normalised (or nothing when it is blank), and where the
      next token starts, unless this one runs to the end of `s`. */
  method NextToken(s: string, pos: nat) returns (kept: seq<string>, next: nat, last: bool)
    requires pos <= |s|
    ensures last ==> kept == Kept(Tokens(s[pos..]))
    ensures !last ==> pos < next <= |s| && kept + Kept(Tokens(s[next..])) == Kept(Tokens(s[pos..]))
  {
    var comma := FindComma(s, pos);
    if comma.None? {
      kept := NormalizeToken(s[pos..]);
      KeptLastToken(s, pos);
      next, last := |s|, true;
    } else {
      var c := comma.value;
      KeptNextToken(s, pos, c);
      kept := NormalizeToken(s[pos..c]);
      next, last := c + 1, false;
    }
  }

  /** `s.find(',', from)`: the search loop for the next comma. */
  method FindComma(s: string, from: nat) returns (r: Option<nat>)
    requires from <= |s|
    ensures r == FindFrom(s, ',', from)
  {
    var i := from;
    while i < |s|
      invariant from <= i <= |s|
      invariant FindFrom(s, ',', from) == FindFrom(s, ',', i)
    {
      if s[i] == ',' {
        return Some(i);
      }
      i := i + 1;
    }
    return None;
  }

  /** A raw token trimmed, given a leading dot when it lacks one and
      lower-cased; a blank token is dropped. */
  method NormalizeToken(raw: string) returns (kept: seq<string>)
    ensures kept == KeepToken(raw)
  {
    var tok := Trim(raw);
    kept := [];
    if tok != [] {
      if tok[0] != '.' {
        tok := ['.'] + tok;
      }
      tok := LowerAll(tok);
      kept := [tok];
    }
  }

  /** The step of the loop that meets a comma at `c`. */
  lemma KeptNextToken(s: string, pos: nat, c: nat)
    requires pos <= c < |s| && s[c] == ','
    requires forall j | pos <= j < c :: s[j] != ','
    ensures Kept(Tokens(s[pos..])) == KeepToken(s[pos..c]) + Kept(Tokens(s[c + 1..]))
  {
    var raw, rest := s[pos..c], s[c + 1..];
    assert s[pos..] == raw + [','] + rest;
    TokensNoComma(raw);
    TokensJoin(raw, rest);
    KeptAppend([raw], Tokens(rest));
  }

  /** The step of the loop that finds no further comma. */
  lemma KeptLastToken(s: string, pos: nat)
    requires pos <= |s|
    requires forall j | pos <= j < |s| :: s[j] != ','
    ensures Kept(Tokens(s[pos..])) == KeepToken(s[pos..])
  {
    TokensNoComma(s[pos..]);
    assert [s[pos..]][1..] == [];
  }

  /** Every entry of the list is non-empty, starts with a dot and holds no
      upper-case letter; an empty argument gives an empty list. */
  lemma ExtListShape(s: string)
    ensures forall k | 0 <= k < |ExtList(s)| :: DottedLower(ExtList(s)[k])
    ensures s == [] ==> ExtList(s) == []
  {
    KeptShape(Tokens(s));
  }

  lemma {:induction false} KeptShape(toks: seq<string>)
    ensures forall k | 0 <= k < |Kept(toks)| :: DottedLower(Kept(toks)[k])
  {
    if toks != [] {
      KeptShape(toks[1..]);
      var head := KeepToken(toks[0]);
      var tail := Kept(toks[1..]);
      assert Kept(toks) == head + tail;
      forall k | 0 <= k < |Kept(toks)| ensures DottedLower(Kept(toks)[k]) {
        if k >= |head| {
          assert Kept(toks)[k] == tail[k - |head|];
        }
      }
    }
  }

  /** Text without a comma is a single token. */
  lemma {:induction false} TokensNoComma(t: string)
    requires ',' !in t
    ensures Tokens(t) == [t]
  {
    if t != [] {
      TokensNoComma(t[1..]);
      assert [t[0]] + t[1..] == t;
    }
  }

  /** Tokens keep their order: the tokens of `a,b` are those of `a`
      followed by those of `b`. */
  lemma {:induction false} TokensJoin(a: string, b: string)
    ensures Tokens(a + "," + b) == Tokens(a) + Tokens(b)
  {
    if a == [] {
      assert a + "," + b == [','] + b;
      assert ([','] + b)[1..] == b;
    } else {
      assert (a + "," + b)[1..] == a[1..] + "," + b;
      TokensJoin(a[1..], b);
    }
  }

  /** There is exactly one more token than there are commas. */
  lemma {:induction false} TokensCount(s: string)
    ensures |Tokens(s)| == CountChar(s, ',') + 1
  {
    if s != [] {
      TokensCount(s[1..]);
    }
  }

  /** Each token yields at most one entry, so there are at most one more
      entries than commas. */
  lemma ExtListCount(s: string)
    ensures |ExtList(s)| <= CountChar(s, ',') + 1
  {
    TokensCount(s);
  }

  /** A token without a comma gives its trimmed, normalised self, or
      nothing when it is blank. */
  lemma ExtListToken(t: string)
    requires ',' !in t
    ensures ExtList(t) == KeepToken(t)
  {
    TokensNoComma(t);
    assert [t][1..] == [];
  }

  /** Entries keep the order of their tokens: the list for `a,b` is the
      list for `a` followed by the list for `b`. */
  lemma ExtListJoin(a: string, b: string)
    ensures ExtList(a + "," + b) == ExtList(a) + ExtList(b)
  {
    TokensJoin(a, b);
    KeptAppend(Tokens(a), Tokens(b));
  }

  // ---------------------------------------------------------------- timeout

  /** `isspace` in the "C" locale. */
  predicate IsSpace(c: char) {
    c == ' ' || 9 <= c as int <= 13
  }

  function SpaceRun(s: string): (k: nat)
    ensures k <= |s| && forall i | 0 <= i < k :: IsSpace(s[i])
    ensures k < |s| ==> !IsSpace(s[k])
  {
    if |s| > 0 && IsSpace(s[0]) then 1 + SpaceRun(s[1..]) else 0
  }

  const LongLongMin: int := -0x8000_0000_0000_0000
  const LongLongMax: int := 0x7FFF_FFFF_FFFF_FFFF

  /** `std::stoll(raw, &idx)`: leading white space, an optional sign and at
      least one decimal digit; the value and the number of characters
      read, or `None` where it throws (no digits, or a value outside
      `long long`). */
  function ParseLongLong(raw: string): (r: Option<(int, nat)>)
    ensures r.Some? ==> LongLongMin <= r.value.0 <= LongLongMax
    ensures r.Some? ==> 0 < r.value.1 <= |raw| && IsDigit(raw[r.value.1 - 1])
    ensures r.Some? && r.value.1 < |raw| ==> !IsDigit(raw[r.value.1])
  {
    var ws := SpaceRun(raw);
    var sign := if ws < |raw| && (raw[ws] == '+' || raw[ws] == '-') then 1 else 0;
    var digits := raw[ws + sign..];
    var k := DigitRun(digits);
    if k == 0 then None
    else
      var magnitude := DigitsValue(digits[..k]);
      var v: int := if sign == 1 && raw[ws] == '-' then -(magnitude as int) else magnitude;
      assert raw[ws + sign + k - 1] == digits[..k][k - 1];
      if v < LongLongMin || v > LongLongMax then None else Some((v, ws + sign + k))
  }

  const DefaultTimeoutMs: int := 10000
  const MaxTimeoutMs: int := 600000

  /** The per-file timeout `--timeout-ms` sets: the default unless the whole
      text parses, and then clamped into [0, 600000]. */
  function EffectiveTimeout(raw: string): (t: int)
    ensures 0 <= t <= MaxTimeoutMs
  {
    match ParseLongLong(raw)
    case None => DefaultTimeoutMs
    case Some(p) =>
      if p.1 != |raw| then DefaultTimeoutMs
      else if p.0 < 0 then 0
      else if p.0 > MaxTimeoutMs then MaxTimeoutMs
      else p.0
  }

  /** The block of `main` that sets `args.timeout_ms`. */
  method ParseTimeout(raw: string) returns (timeoutMs: int)
    ensures timeoutMs == EffectiveTimeout(raw)
    ensures 0 <= timeoutMs <= MaxTimeoutMs
  {
    timeoutMs := DefaultTimeoutMs;
    var parsed := ParseLongLong(raw);
    if parsed.None? {
      return;
    }
    var v := parsed.value.0;
    var idx := parsed.value.1;
    if idx != |raw| {
      return;
    }
    if v < 0 {
      v := 0;
    }
    if v > MaxTimeoutMs {
      v := MaxTimeoutMs;
    }
    timeoutMs := v;
  }

  lemma ParseDecimal(n: nat)
    requires n <= LongLongMax
    ensures ParseLongLong(Decimal(n)) == Some((n, |Decimal(n)|))
  {
    var d := Decimal(n);
    assert !IsSpace(d[0]) && d[0] != '+' && d[0] != '-' by { assert IsDigit(d[0]); }
    assert d[0..] == d;
    DigitRunOf(d, []);
    assert d + [] == d;
    assert d[..|d|] == d;
    DigitsValueDecimal(n);
  }

  /** A plain number is taken as it is up to ten minutes and capped there;
      one too large for `long long` leaves the default. */
  lemma TimeoutOfNumber(n: nat)
    ensures n <= MaxTimeoutMs ==> EffectiveTimeout(Decimal(n)) == n
    ensures MaxTimeoutMs < n <= LongLongMax ==> EffectiveTimeout(Decimal(n)) == MaxTimeoutMs
    ensures n > LongLongMax ==> EffectiveTimeout(Decimal(n)) == DefaultTimeoutMs
  {
    if n <= LongLongMax {
      ParseDecimal(n);
    } else {
      var d := Decimal(n);
      assert !IsSpace(d[0]) && d[0] != '+' && d[0] != '-' by { assert IsDigit(d[0]); }
      assert d[0..] == d;
      DigitRunOf(d, []);
      assert d + [] == d;
      assert d[..|d|] == d;
      DigitsValueDecimal(n);
    }
  }

  /** A negative number becomes 0. */
  lemma TimeoutOfNegative(n: nat)
    requires 0 < n <= -LongLongMin
    ensures EffectiveTimeout(['-'] + Decimal(n)) == 0
  {
    var d := Decimal(n);
    var raw := ['-'] + d;
    assert raw[1..] == d;
    DigitRunOf(d, []);
    assert d + [] == d;
    assert d[..|d|] == d;
    DigitsValueDecimal(n);
  }

  /** Anything after the number makes the whole value fall back to the
      default. */
  lemma TimeoutTrailing(n: nat, rest: string)
    requires n <= LongLongMax
    requires rest != [] && !IsDigit(rest[0])
    ensures EffectiveTimeout(Decimal(n) + rest) == DefaultTimeoutMs
  {
    var d := Decimal(n);
    var raw := d + rest;
    assert !IsSpace(raw[0]) && raw[0] != '+' && raw[0] != '-' by { assert raw[0] == d[0] && IsDigit(d[0]); }
    assert raw[0..] == raw;
    DigitRunOf(d, rest);
    assert raw[..|d|] == d;
    DigitsValueDecimal(n);
  }

  /** Leading white space is skipped. */
  lemma TimeoutLeadingSpace(ws: string, raw: string)
    requires forall i | 0 <= i < |ws| :: IsSpace(ws[i])
    requires raw == [] || !IsSpace(raw[0])
    ensures EffectiveTimeout(ws + raw) == EffectiveTimeout(raw)
  {
    var s := ws + raw;
    assert SpaceRun(s) == |ws| by { SpaceRunOf(ws, raw); }
    assert s[|ws|..] == raw;
    assert raw[0..] == raw;
    assert forall j | 0 <= j <= |raw| :: s[|ws| + j..] == raw[j..];
  }

  lemma {:induction false} SpaceRunOf(ws: string, raw: string)
    requires forall i | 0 <= i < |ws| :: IsSpace(ws[i])
    requires raw == [] || !IsSpace(raw[0])
    ensures SpaceRun(ws + raw) == |ws|
  {
    if ws != [] {
      assert (ws + raw)[1..] == ws[1..] + raw;
      SpaceRunOf(ws[1..], raw);
    } else {
      assert ws + raw == raw;
    }
  }

  /** Text with no digit at all leaves the default. */
  lemma TimeoutNoDigits(raw: string)
    requires forall i | 0 <= i < |raw| :: !IsDigit(raw[i])
    ensures EffectiveTimeout(raw) == DefaultTimeoutMs
  {
  }

  // ---------------------------------------------------------------- Args

  /** The options of a run, with the defaults of src/main.cpp. */
  datatype Args = Args(
    rules: string,
    root: string,
    exts: string,
    timeoutMs: int,
    reportDir: string,
    reportBase: string,
    logPath: string,
    quiet: bool,
    help: bool)

  /** The options `main` ends up with for `argv`. `--report-dir` is listed
      in the usage text but never read, so the report directory stays
      `reports`. */
  function Options(argv: seq<string>): (a: Args)
    ensures 0 <= a.timeoutMs <= MaxTimeoutMs
    ensures a.reportDir == "reports"
  {
    Args(
      FlagValue(argv, "--rules", "rules/all.yar"),
      FlagValue(argv, "--root", "."),
      FlagValue(argv, "--ext", ""),
      EffectiveTimeout(FlagValue(argv, "--timeout-ms", Decimal(DefaultTimeoutMs))),
      "reports",
      FlagValue(argv, "--report-base", "scan"),
      FlagValue(argv, "--log", "logs/scan.log"),
      HasArg(argv, "--quiet"),
      HasArg(argv, "--help"))
  }

  /** The option parsing of `main`, flag by flag in its order. */
  method ParseArgs(argv: seq<string>) returns (a: Args)
    ensures a == Options(argv)
  {
    var help := HasFlag(argv, "--help");
    var rules := ParseFlag(argv, "--rules", "rules/all.yar");
    var root := ParseFlag(argv, "--root", ".");
    var exts := ParseFlag(argv, "--ext", "");
    var raw := ParseFlag(argv, "--timeout-ms", Decimal(DefaultTimeoutMs));
    var timeoutMs := ParseTimeout(raw);
    var reportBase := ParseFlag(argv, "--report-base", "scan");
    var logPath := ParseFlag(argv, "--log", "logs/scan.log");
    var quiet := HasFlag(argv, "--quiet");
    a := Args(rules, root, exts, timeoutMs, "reports", reportBase, logPath, quiet, help);
  }
}
