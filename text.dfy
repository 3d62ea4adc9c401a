/** Character and string helpers shared by the writers and the parsers:
    decimal digits (as `std::to_string` and `%llu` print them), character
    counting and the C-locale `tolower`. */
module Text {
  import opened Wrappers

  predicate IsDigit(c: char) {
    '0' <= c <= '9'
  }

  predicate AllDigits(s: string) {
    forall i | 0 <= i < |s| :: IsDigit(s[i])
  }

  function DigitChar(d: nat): (c: char)
    requires d < 10
    ensures IsDigit(c)
  {
    ('0' as int + d) as char
  }

  function DigitValue(c: char): (d: nat)
    requires IsDigit(c)
    ensures d < 10 && DigitChar(d) == c
  {
    c as int - '0' as int
  }

  /** The shortest decimal spelling of `n`, most significant digit first. */
  function Decimal(n: nat): (s: string)
    ensures |s| >= 1 && AllDigits(s)
    ensures s[0] == '0' ==> n == 0
  {
    if n < 10 then [DigitChar(n)] else Decimal(n / 10) + [DigitChar(n % 10)]
  }

  /** The number a string of decimal digits denotes. */
  function DigitsValue(s: string): nat
    requires AllDigits(s)
  {
    if s == [] then 0 else DigitsValue(s[..|s| - 1]) * 10 + DigitValue(s[|s| - 1])
  }

  /** Reading back what `Decimal` printed gives the number again. */
  lemma {:induction false} DigitsValueDecimal(n: nat)
    ensures DigitsValue(Decimal(n)) == n
  {
    var s := Decimal(n);
    if n >= 10 {
      assert s[..|s| - 1] == Decimal(n / 10);
      DigitsValueDecimal(n / 10);
    }
  }

  /** Length of the longest run of digits at the front of `s`. */
  function DigitRun(s: string): (k: nat)
    ensures k <= |s| && AllDigits(s[..k])
    ensures k < |s| ==> !IsDigit(s[k])
  {
    if |s| > 0 && IsDigit(s[0]) then
      var k := 1 + DigitRun(s[1..]);
      assert forall i | 1 <= i < k :: s[..k][i] == s[1..][..k - 1][i - 1];
      k
    else 0
  }

  /** A run of digits followed by a non-digit (or by nothing) is read whole. */
  lemma {:induction false} DigitRunOf(d: string, rest: string)
    requires AllDigits(d)
    requires rest == [] || !IsDigit(rest[0])
    ensures DigitRun(d + rest) == |d|
  {
    if d != [] {
      assert (d + rest)[1..] == d[1..] + rest;
      DigitRunOf(d[1..], rest);
    } else {
      assert d + rest == rest;
    }
  }

  /** How many times `c` occurs in `s`. */
  function CountChar(s: string, c: char): (n: nat)
    ensures n <= |s|
  {
    if s == [] then 0 else (if s[0] == c then 1 else 0) + CountChar(s[1..], c)
  }

  lemma {:induction false} CountCharAppend(a: string, b: string, c: char)
    ensures CountChar(a + b, c) == CountChar(a, c) + CountChar(b, c)
  {
    if a == [] {
      assert a + b == b;
    } else {
      assert (a + b)[1..] == a[1..] + b;
      CountCharAppend(a[1..], b, c);
    }
  }

  lemma {:induction false} CountCharAbsent(s: string, c: char)
    requires c !in s
    ensures CountChar(s, c) == 0
  {
    if s != [] {
      assert s[0] != c;
      CountCharAbsent(s[1..], c);
    }
  }

  /** The first position at or after `from` that holds `c`, as `std::string::find`
      reports it (`None` standing for `npos`). */
  function FindFrom(s: string, c: char, from: nat): (r: Option<nat>)
    decreases |s| - from
    ensures r.Some? ==> from <= r.value < |s| && s[r.value] == c
    ensures r.Some? ==> forall j | from <= j < r.value :: s[j] != c
    ensures r.None? ==> forall j | from <= j < |s| :: s[j] != c
  {
    if from >= |s| then None
    else if s[from] == c then Some(from)
    else FindFrom(s, c, from + 1)
  }

  predicate IsUpper(c: char) {
    'A' <= c <= 'Z'
  }

  /** `std::tolower` in the "C" locale: only ASCII upper-case letters change. */
  function ToLower(c: char): (r: char)
    ensures !IsUpper(r)
    ensures IsUpper(c) ==> r as int == c as int + 32
    ensures !IsUpper(c) ==> r == c
  {
    if IsUpper(c) then (c as int + 32) as char else c
  }

  function LowerAll(s: string): (r: string)
    ensures |r| == |s|
    ensures forall i | 0 <= i < |s| :: r[i] == ToLower(s[i])
  {
    seq(|s|, i requires 0 <= i < |s| => ToLower(s[i]))
  }

  /** Each line followed by a line break: what a sequence of `fprintf`
      calls, one per line, leaves in a file. */
  function Lines(ls: seq<string>): string {
    if ls == [] then [] else ls[0] + "\n" + Lines(ls[1..])
  }

  lemma {:induction false} LinesAppend(a: seq<string>, b: seq<string>)
    ensures Lines(a + b) == Lines(a) + Lines(b)
  {
    if a == [] {
      assert a + b == b;
    } else {
      assert (a + b)[1..] == a[1..] + b;
      LinesAppend(a[1..], b);
    }
  }

  /** A non-empty suffix is its first element followed by the rest. */
  lemma SuffixCons<T>(s: seq<T>, i: nat)
    requires i < |s|
    ensures s[i..] == [s[i]] + s[i + 1..]
  {
  }

  /** Concatenation regrouped to the right. */
  lemma Regroup<T>(a: seq<T>, b: seq<T>, c: seq<T>)
    ensures (a + b) + c == a + (b + c)
  {
  }

  /** Printing one more line appends it and its line break. */
  lemma LinesSnoc(ls: seq<string>, l: string)
    ensures Lines(ls + [l]) == Lines(ls) + l + "\n"
  {
    LinesAppend(ls, [l]);
    assert [l][1..] == [];
  }

  predicate NoLineBreaks(ls: seq<string>) {
    forall i | 0 <= i < |ls| :: '\n' !in ls[i]
  }

  lemma NoLineBreaksAppend(a: seq<string>, b: seq<string>)
    requires NoLineBreaks(a) && NoLineBreaks(b)
    ensures NoLineBreaks(a + b)
  {
    forall i | 0 <= i < |a + b| ensures '\n' !in (a + b)[i] {
      if i >= |a| {
        assert (a + b)[i] == b[i - |a|];
      }
    }
  }

  /** The text holds exactly one line break per line. */
  lemma {:induction false} LinesCount(ls: seq<string>)
    requires NoLineBreaks(ls)
    ensures CountChar(Lines(ls), '\n') == |ls|
  {
    if ls != [] {
      assert NoLineBreaks(ls[1..]) by {
        forall i | 0 <= i < |ls| - 1 ensures '\n' !in ls[1..][i] {
          assert ls[1..][i] == ls[i + 1];
        }
      }
      LinesCount(ls[1..]);
      CountCharAbsent(ls[0], '\n');
      CountCharAppend(ls[0], "\n", '\n');
      CountCharAppend(ls[0] + "\n", Lines(ls[1..]), '\n');
    }
  }

  /** Cuts a text into its lines; `None` when the last line is unterminated. */
  function SplitLines(s: string): Option<seq<string>>
    decreases |s|
  {
    if s == [] then Some([])
    else
      var k :- FindFrom(s, '\n', 0);
      var rest :- SplitLines(s[k + 1..]);
      Some([s[..k]] + rest)
  }

  lemma {:induction false} SplitLinesOfLines(ls: seq<string>)
    requires NoLineBreaks(ls)
    ensures SplitLines(Lines(ls)) == Some(ls)
  {
    if ls != [] {
      var s := Lines(ls);
      var l := ls[0];
      assert s == l + ("\n" + Lines(ls[1..]));
      var k := FindFrom(s, '\n', 0);
      assert s[|l|] == '\n';
      assert k.Some? && k.value == |l|;
      assert s[..|l|] == l;
      assert s[|l| + 1..] == Lines(ls[1..]);
      assert NoLineBreaks(ls[1..]) by {
        forall i | 0 <= i < |ls| - 1 ensures '\n' !in ls[1..][i] {
          assert ls[1..][i] == ls[i + 1];
        }
      }
      SplitLinesOfLines(ls[1..]);
      assert [l] + ls[1..] == ls;
    }
  }
}
