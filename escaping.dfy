/** `Report::escape` (src/report.hpp): the escaper applied to every string
    both report writers emit, and the reader that undoes it. */
module Escaping {
  import opened Wrappers
  import opened Text

  /** The five characters the escaper rewrites. */
  predicate IsSpecial(c: char) {
    c == '\\' || c == '"' || c == '\n' || c == '\r' || c == '\t'
  }

  /** The control characters that must never reach a report unescaped. */
  predicate IsControl(c: char) {
    c == '\n' || c == '\r' || c == '\t'
  }

  /** What one input character becomes. */
  function EscapeChar(c: char): string {
    match c
    case '\\' => "\\\\"
    case '"' => "\\\""
    case '\n' => "\\n"
    case '\r' => "\\r"
    case '\t' => "\\t"
    case _ => [c]
  }

  /** The escaped form of a whole string: each character replaced by `EscapeChar`. */
  function Escaped(s: string): string {
    if s == [] then [] else EscapeChar(s[0]) + Escaped(s[1..])
  }

  function CountSpecial(s: string): nat {
    if s == [] then 0 else (if IsSpecial(s[0]) then 1 else 0) + CountSpecial(s[1..])
  }

  /** The byte loop of `Report::escape`, appending to an output buffer. */
  method Escape(s: string) returns (o: string)
    ensures o == Escaped(s)
  {
    o := [];
    for i := 0 to |s|
      invariant o == Escaped(s[..i])
    {
      var c := s[i];
      var piece: string;
      match c {
        case '\\' => piece := "\\\\";
        case '"' => piece := "\\\"";
        case '\n' => piece := "\\n";
        case '\r' => piece := "\\r";
        case '\t' => piece := "\\t";
        case _ => piece := [c];
      }
      assert piece == EscapeChar(c);
      assert Escaped(s[..i + 1]) == o + piece by {
        assert s[..i + 1] == s[..i] + [c];
        EscapedAppend(s[..i], [c]);
      }
      o := o + piece;
    }
    assert s[..|s|] == s;
  }

  /** Each special character becomes a backslash and a letter or itself;
      every other character is copied unchanged. */
  lemma EscapeCharShape(c: char)
    ensures IsSpecial(c) ==> |EscapeChar(c)| == 2 && EscapeChar(c)[0] == '\\'
    ensures c == '\\' ==> EscapeChar(c) == ['\\', '\\']
    ensures c == '"' ==> EscapeChar(c) == ['\\', '"']
    ensures c == '\n' ==> EscapeChar(c) == ['\\', 'n']
    ensures c == '\r' ==> EscapeChar(c) == ['\\', 'r']
    ensures c == '\t' ==> EscapeChar(c) == ['\\', 't']
    ensures !IsSpecial(c) ==> EscapeChar(c) == [c]
  {
  }

  /** Escaping distributes over concatenation. */
  lemma {:induction false} EscapedAppend(a: string, b: string)
    ensures Escaped(a + b) == Escaped(a) + Escaped(b)
  {
    if a == [] {
      assert a + b == b;
    } else {
      assert (a + b)[1..] == a[1..] + b;
      EscapedAppend(a[1..], b);
    }
  }

  /** A string without special characters is its own escaped form. */
  lemma {:induction false} EscapedIdentity(s: string)
    requires forall i | 0 <= i < |s| :: !IsSpecial(s[i])
    ensures Escaped(s) == s
  {
    if s != [] {
      EscapedIdentity(s[1..]);
      assert s == [s[0]] + s[1..];
    }
  }

  /** Each special character adds exactly one character to the output. */
  lemma {:induction false} EscapedLength(s: string)
    ensures |Escaped(s)| == |s| + CountSpecial(s)
  {
    if s != [] {
      EscapedLength(s[1..]);
    }
  }

  /** No raw newline, carriage return or tab survives escaping. */
  lemma {:induction false} EscapedNoControl(s: string)
    ensures forall i | 0 <= i < |Escaped(s)| :: !IsControl(Escaped(s)[i])
  {
    if s != [] {
      EscapedNoControl(s[1..]);
      var head, tail := EscapeChar(s[0]), Escaped(s[1..]);
      assert Escaped(s) == head + tail;
      forall i | 0 <= i < |Escaped(s)| ensures !IsControl(Escaped(s)[i]) {
        if i >= |head| {
          assert Escaped(s)[i] == tail[i - |head|];
        }
      }
    }
  }

  /** Hence an escaped string holds no line break: one report line per record. */
  lemma EscapedNoNewline(s: string)
    ensures '\n' !in Escaped(s)
  {
    EscapedNoControl(s);
  }

  /** The character an escape letter stands for, if it is one of the five. */
  function UnescapeLetter(c: char): Option<char> {
    match c
    case '\\' => Some('\\')
    case '"' => Some('"')
    case 'n' => Some('\n')
    case 'r' => Some('\r')
    case 't' => Some('\t')
    case _ => None
  }

  /** Reads the body of a double-quoted field: undoes the escapes up to the
      first unescaped `"`, and returns the value read and what follows the
      closing quote. */
  function ReadQuoted(s: string): (r: Option<(string, string)>)
    ensures r.Some? ==> |r.value.1| < |s|
  {
    if s == [] then None
    else if s[0] == '"' then Some(([], s[1..]))
    else if s[0] == '\\' then
      if |s| < 2 then None
      else
        var c :- UnescapeLetter(s[1]);
        var p :- ReadQuoted(s[2..]);
        Some(([c] + p.0, p.1))
    else
      var p :- ReadQuoted(s[1..]);
      Some(([s[0]] + p.0, p.1))
  }

  /** Reading one escaped character then the rest is reading the rest. */
  lemma ReadQuotedStep(c: char, t: string)
    ensures ReadQuoted(EscapeChar(c) + t)
         == match ReadQuoted(t) case None => None case Some(p) => Some(([c] + p.0, p.1))
  {
    var s := EscapeChar(c) + t;
    if IsSpecial(c) {
      assert s[0] == '\\' && s[2..] == t;
      assert UnescapeLetter(s[1]) == Some(c);
    } else {
      assert s[0] == c && s[1..] == t;
    }
  }

  /** A quoted field written with `Escaped` reads back as the original value. */
  lemma {:induction false} ReadQuotedEscaped(x: string, rest: string)
    ensures ReadQuoted(Escaped(x) + ['"'] + rest) == Some((x, rest))
  {
    if x == [] {
      assert Escaped(x) + ['"'] + rest == ['"'] + rest;
    } else {
      var t := Escaped(x[1..]) + ['"'] + rest;
      assert Escaped(x) + ['"'] + rest == EscapeChar(x[0]) + t;
      ReadQuotedEscaped(x[1..], rest);
      ReadQuotedStep(x[0], t);
      assert [x[0]] + x[1..] == x;
    }
  }

  /** Undoes `Escaped` on a complete field body. */
  function Unescape(t: string): Option<string> {
    var p :- ReadQuoted(t + ['"']);
    if p.1 == [] then Some(p.0) else None
  }

  lemma UnescapeEscaped(s: string)
    ensures Unescape(Escaped(s)) == Some(s)
  {
    ReadQuotedEscaped(s, []);
    assert Escaped(s) + ['"'] + [] == Escaped(s) + ['"'];
  }

  /** Distinct strings have distinct escaped forms. */
  lemma EscapedInjective(a: string, b: string)
    requires Escaped(a) == Escaped(b)
    ensures a == b
  {
    UnescapeEscaped(a);
    UnescapeEscaped(b);
  }
}
