/** src/traverse.cpp: the extension filter and the selection that
    `traverse::list_files` makes from the entries of a recursive directory
    walk. The walk itself is given as the sequence of entries it yields. */
module Traverse {
  import opened Wrappers
  import opened Text

  /** The two builds of `match_ext`: the POSIX branch and the `_WIN32` one. */
  datatype Platform = Posix | Windows

  predicate IsSeparator(c: char, plat: Platform) {
    c == '/' || (plat == Windows && c == '\\')
  }

  /** `path::filename`: what follows the last directory separator. */
  function FileName(p: string, plat: Platform): (f: string)
    ensures |f| <= |p| && f == p[|p| - |f|..]
    ensures forall i | 0 <= i < |f| :: !IsSeparator(f[i], plat)
    ensures |f| < |p| ==> IsSeparator(p[|p| - |f| - 1], plat)
  {
    if p == [] || IsSeparator(p[|p| - 1], plat) then []
    else FileName(p[..|p| - 1], plat) + [p[|p| - 1]]
  }

  /** The position of the last dot in `f`, if any. */
  function LastDot(f: string): (r: Option<nat>)
    ensures r.Some? ==> r.value < |f| && f[r.value] == '.'
    ensures r.Some? ==> forall j | r.value < j < |f| :: f[j] != '.'
    ensures r.None? ==> '.' !in f
  {
    if f == [] then None
    else if f[|f| - 1] == '.' then Some(|f| - 1)
    else LastDot(f[..|f| - 1])
  }

  /** The extension of a file name: its suffix from the last dot; empty
      when there is no dot, when the only dot leads the name (`.bashrc`),
      and for `.` and `..`. */
  function NameExtension(f: string): (e: string)
    ensures e == [] || (e[0] == '.' && '.' !in e[1..])
    ensures e != [] ==> |e| < |f| && e == f[|f| - |e|..]
  {
    if f == "." || f == ".." then []
    else match LastDot(f)
      case None => []
      case Some(k) => if k == 0 then [] else f[k..]
  }

  /** `path::extension`: the extension of the path's file name, so a dot in
      a directory name never counts. */
  function Extension(p: string, plat: Platform): (e: string)
    ensures e == [] || (e[0] == '.' && '.' !in e[1..])
  {
    NameExtension(FileName(p, plat))
  }

  /** The file name of a path is what follows its directory part. */
  lemma {:induction false} FileNameOf(dir: string, name: string, plat: Platform)
    requires dir == [] || IsSeparator(dir[|dir| - 1], plat)
    requires forall i | 0 <= i < |name| :: !IsSeparator(name[i], plat)
    ensures FileName(dir + name, plat) == name
  {
    if name == [] {
      assert dir + name == dir;
    } else {
      var n := |name| - 1;
      assert (dir + name)[..|dir + name| - 1] == dir + name[..n];
      FileNameOf(dir, name[..n], plat);
    }
  }

  lemma {:induction false} LastDotOf(stem: string, ext: string)
    requires '.' !in ext
    ensures LastDot(stem + "." + ext) == Some(|stem|)
    decreases |ext|
  {
    if ext == [] {
      assert (stem + "." + ext)[|stem|] == '.';
    } else {
      var n := |ext| - 1;
      var f := stem + "." + ext;
      assert f[|f| - 1] == ext[n];
      assert f[..|f| - 1] == stem + "." + ext[..n];
      LastDotOf(stem, ext[..n]);
    }
  }

  lemma NameExtensionOf(stem: string, ext: string)
    requires stem != [] && ext != [] && '.' !in ext
    ensures NameExtension(stem + "." + ext) == "." + ext
  {
    var f := stem + "." + ext;
    LastDotOf(stem, ext);
    assert |f| >= 3;
    assert f[|stem|..] == "." + ext;
  }

  lemma ExtensionOfName(dir: string, name: string, plat: Platform)
    requires dir == [] || IsSeparator(dir[|dir| - 1], plat)
    requires forall i | 0 <= i < |name| :: !IsSeparator(name[i], plat)
    ensures Extension(dir + name, plat) == NameExtension(name)
  {
    FileNameOf(dir, name, plat);
  }

  /** A file name whose only dot leads it (`.bashrc`) has no extension. */
  lemma HiddenNameNoExtension(dir: string, name: string, plat: Platform)
    requires dir == [] || IsSeparator(dir[|dir| - 1], plat)
    requires '.' !in name
    requires forall i | 0 <= i < |"." + name| :: !IsSeparator(("." + name)[i], plat)
    ensures Extension(dir + ("." + name), plat) == ""
  {
    FileNameOf(dir, "." + name, plat);
    LeadingDotOnly(name);
  }

  lemma LeadingDotOnly(name: string)
    requires '.' !in name
    ensures NameExtension("." + name) == []
  {
    LastDotOf([], name);
    assert [] + "." + name == "." + name;
  }

  /** A file name without a dot has no extension, even when a directory
      name holds one. */
  lemma NoDotNoExtension(dir: string, name: string, plat: Platform)
    requires dir == [] || IsSeparator(dir[|dir| - 1], plat)
    requires '.' !in name
    requires forall i | 0 <= i < |name| :: !IsSeparator(name[i], plat)
    ensures Extension(dir + name, plat) == ""
  {
    FileNameOf(dir, name, plat);
  }

  /** Two extensions compare equal: byte for byte on POSIX, and with the
      same length and ASCII case ignored under `_WIN32`. */
  predicate SameExt(e: string, x: string, plat: Platform) {
    match plat
    case Posix => e == x
    case Windows => |e| == |x| && forall i | 0 <= i < |e| :: ToLower(e[i]) == ToLower(x[i])
  }

  /** The path passes the filter: every path when the list is empty,
      otherwise when its extension equals some entry of the list. */
  predicate ExtAllowed(p: string, exts: seq<string>, plat: Platform) {
    exts == [] || Listed(Extension(p, plat), exts, plat)
  }

  /** Some entry of the list equals the extension `e`. */
  predicate Listed(e: string, exts: seq<string>, plat: Platform) {
    exists j | 0 <= j < |exts| :: SameExt(e, exts[j], plat)
  }

  /** The `_WIN32` comparison: equal lengths, then `std::equal` with
      `tolower` applied to both sides. */
  method EqualIgnoringCase(e: string, x: string) returns (b: bool)
    ensures b <==> SameExt(e, x, Windows)
  {
    if |e| != |x| {
      return false;
    }
    for i := 0 to |e|
      invariant forall k | 0 <= k < i :: ToLower(e[k]) == ToLower(x[k])
    {
      if ToLower(e[i]) != ToLower(x[i]) {
        return false;
      }
    }
    return true;
  }

  /** `match_ext`: true for an empty list, otherwise a search of the list
      that stops at the first entry equal to the path's extension. */
  method MatchExt(p: string, exts: seq<string>, plat: Platform) returns (b: bool)
    ensures b <==> ExtAllowed(p, exts, plat)
  {
    if |exts| == 0 {
      return true;
    }
    var e := Extension(p, plat);
    b := SearchExt(e, exts, plat);
  }

  /** The loop of `match_ext`: the entries in order, stopping at the first
      one equal to `e` under the platform's comparison. */
  method SearchExt(e: string, exts: seq<string>, plat: Platform) returns (b: bool)
    ensures b <==> Listed(e, exts, plat)
  {
    for j := 0 to |exts|
      invariant forall k | 0 <= k < j :: !SameExt(e, exts[k], plat)
    {
      var same: bool;
      if plat == Windows {
        same := EqualIgnoringCase(e, exts[j]);
      } else {
        same := e == exts[j];
      }
      if same {
        return true;
      }
    }
    return false;
  }

  /** Under `_WIN32` two extensions match exactly when their lower-case
      forms are equal. */
  lemma WindowsSameExtLower(e: string, x: string)
    ensures SameExt(e, x, Windows) <==> LowerAll(e) == LowerAll(x)
  {
    if LowerAll(e) == LowerAll(x) {
      assert |e| == |x|;
      forall i | 0 <= i < |e| ensures ToLower(e[i]) == ToLower(x[i]) {
        assert LowerAll(e)[i] == LowerAll(x)[i];
      }
    }
  }

  /** Adding entries to a non-empty list never turns a match into a
      non-match. */
  lemma ExtAllowedMonotone(p: string, exts: seq<string>, more: seq<string>, plat: Platform)
    requires exts != [] && ExtAllowed(p, exts, plat)
    ensures ExtAllowed(p, exts + more, plat)
  {
    var j :| 0 <= j < |exts| && SameExt(Extension(p, plat), exts[j], plat);
    assert (exts + more)[j] == exts[j];
  }

  /** On POSIX the comparison is case-sensitive: an extension holding an
      upper-case letter never passes a list of lower-case entries. */
  lemma PosixCaseSensitive(p: string, exts: seq<string>)
    requires exts != []
    requires exists i | 0 <= i < |Extension(p, Posix)| :: IsUpper(Extension(p, Posix)[i])
    requires forall j | 0 <= j < |exts| :: forall i | 0 <= i < |exts[j]| :: !IsUpper(exts[j][i])
    ensures !ExtAllowed(p, exts, Posix)
  {
  }

  /** Under `_WIN32` the case of the extension does not matter. */
  lemma WindowsCaseInsensitive(p: string, exts: seq<string>)
    requires exists j | 0 <= j < |exts| :: exts[j] == LowerAll(Extension(p, Windows))
    ensures ExtAllowed(p, exts, Windows)
  {
    var j :| 0 <= j < |exts| && exts[j] == LowerAll(Extension(p, Windows));
    WindowsSameExtLower(Extension(p, Windows), exts[j]);
  }

  /** The names `.` and `..` have no extension. */
  lemma DotNamesNoExtension(dir: string, name: string, plat: Platform)
    requires dir == [] || IsSeparator(dir[|dir| - 1], plat)
    requires name == "." || name == ".."
    ensures Extension(dir + name, plat) == ""
  {
    ExtensionOfName(dir, name, plat);
  }

  // ---------------------------------------------------------------- list_files

  /** What `is_regular_file` reports for an entry. */
  datatype FileKind = Regular | NotRegular | CheckFailed

  /** One step of the walk: the entry's path, whether the step that
      reached it reported an error, and the kind of file it is. */
  datatype Entry = Entry(path: string, stepFailed: bool, kind: FileKind)

  predicate Qualifies(e: Entry, exts: seq<string>, plat: Platform) {
    !e.stepFailed && e.kind == Regular && ExtAllowed(e.path, exts, plat)
  }

  /** The paths of the qualifying entries, in walk order. */
  function Selected(entries: seq<Entry>, exts: seq<string>, plat: Platform): (out: seq<string>)
    ensures |out| <= |entries|
  {
    if entries == [] then []
    else
      var last := entries[|entries| - 1];
      Selected(entries[..|entries| - 1], exts, plat) + (if Qualifies(last, exts, plat) then [last.path] else [])
  }

  /** `traverse::list_files`: skips entries whose step failed, entries that
      are not regular files (or whose check failed) and entries the filter
      rejects; the walk goes on after each. */
  method ListFiles(entries: seq<Entry>, exts: seq<string>, plat: Platform) returns (out: seq<string>)
    ensures out == Selected(entries, exts, plat)
  {
    out := [];
    for i := 0 to |entries|
      invariant out == Selected(entries[..i], exts, plat)
    {
      assert entries[..i + 1][..i] == entries[..i];
      var e := entries[i];
      if e.stepFailed {
        continue;
      }
      if e.kind != Regular {
        continue;
      }
      var ok := MatchExt(e.path, exts, plat);
      if !ok {
        continue;
      }
      out := out + [e.path];
    }
    assert entries[..|entries|] == entries;
  }

  /** Selection distributes over the walk: the output keeps walk order. */
  lemma {:induction false} SelectedAppend(a: seq<Entry>, b: seq<Entry>, exts: seq<string>, plat: Platform)
    ensures Selected(a + b, exts, plat) == Selected(a, exts, plat) + Selected(b, exts, plat)
    decreases |b|
  {
    if b == [] {
      assert a + b == a;
    } else {
      var n := |b| - 1;
      var ab := a + b;
      assert ab[..|ab| - 1] == a + b[..n];
      assert ab[|ab| - 1] == b[n];
      var tail := if Qualifies(b[n], exts, plat) then [b[n].path] else [];
      calc {
        Selected(ab, exts, plat);
        Selected(a + b[..n], exts, plat) + tail;
        { SelectedAppend(a, b[..n], exts, plat); }
        (Selected(a, exts, plat) + Selected(b[..n], exts, plat)) + tail;
        Selected(a, exts, plat) + (Selected(b[..n], exts, plat) + tail);
        Selected(a, exts, plat) + Selected(b, exts, plat);
      }
    }
  }

  /** Every listed path comes from an entry of the walk that qualifies: an
      error-free regular file that passes the filter. */
  lemma {:induction false} SelectedSound(entries: seq<Entry>, exts: seq<string>, plat: Platform, p: string)
    requires p in Selected(entries, exts, plat)
    ensures exists i | 0 <= i < |entries| :: entries[i].path == p && Qualifies(entries[i], exts, plat)
  {
    var n := |entries| - 1;
    var init := entries[..n];
    if p in Selected(init, exts, plat) {
      SelectedSound(init, exts, plat, p);
      var i :| 0 <= i < |init| && init[i].path == p && Qualifies(init[i], exts, plat);
      assert entries[i] == init[i];
    } else {
      assert entries[n].path == p && Qualifies(entries[n], exts, plat);
    }
  }

  /** Every qualifying entry of the walk is listed. */
  lemma SelectedComplete(entries: seq<Entry>, exts: seq<string>, plat: Platform, i: nat)
    requires i < |entries| && Qualifies(entries[i], exts, plat)
    ensures entries[i].path in Selected(entries, exts, plat)
  {
    var upto := entries[..i + 1];
    assert upto[..i] == entries[..i];
    assert upto[i] == entries[i];
    assert Selected(upto, exts, plat) == Selected(entries[..i], exts, plat) + [entries[i].path];
    SelectedAppend(upto, entries[i + 1..], exts, plat);
    assert upto + entries[i + 1..] == entries;
  }
}
