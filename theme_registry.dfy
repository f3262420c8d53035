/** The theme registry: the text file `quizPath.txt` that maps each theme
    name to the folder holding its quizzes, one line `[name]-[path]` per
    theme, and the in-memory dictionary it is loaded into. */
module ThemeRegistry {
  import opened Wrappers
  import opened Text

  /** One registry entry: a theme and the folder of its quiz files. */
  datatype Theme = Theme(name: string, path: string)

  /** The registry as the program holds it, a Python dict: its entries in
      insertion order. Keys are unique (`UniqueNames`). */
  type Registry = seq<Theme>

  /** The theme `play_quiz` adds so that earlier mistakes can be replayed. */
  const ErrorsTheme := "Review my errors"
  const ErrorsFolder := "Errors"

  /** What separates name and path on a registry line. */
  const Sep := "]-["

  /** `name in themes`. */
  predicate HasName(r: Registry, name: string) {
    exists i :: 0 <= i < |r| && r[i].name == name
  }

  /** No two entries share a name: the invariant of a dict's keys. */
  predicate UniqueNames(r: Registry) {
    forall i, j :: 0 <= i < j < |r| ==> r[i].name != r[j].name
  }

  /** `themes.get(name)`: the path registered under `name`, if any. */
  function Lookup(r: Registry, name: string): (o: Option<string>)
    ensures o.Some? <==> HasName(r, name)
    ensures o.Some? ==> Theme(name, o.value) in r
  {
    if r == [] then None
    else if r[0].name == name then Some(r[0].path)
    else Lookup(r[1..], name)
  }

  /** `themes[name] = path`: an existing entry gets the new path and keeps its
      position; a new name is appended after all the others. */
  function Put(r: Registry, name: string, path: string): (r': Registry)
    requires UniqueNames(r)
    ensures UniqueNames(r')
    ensures HasName(r, name) ==>
      |r'| == |r| &&
      forall i :: 0 <= i < |r| ==> r'[i] == if r[i].name == name then Theme(name, path) else r[i]
    ensures !HasName(r, name) ==> r' == r + [Theme(name, path)]
  {
    if r == [] then [Theme(name, path)]
    else if r[0].name == name then [Theme(name, path)] + r[1..]
    else [r[0]] + Put(r[1..], name, path)
  }

  /** After `themes[name] = path` the name maps to the path and every other
      name maps to what it did before. */
  lemma {:induction false} PutLookup(r: Registry, name: string, path: string, n: string)
    requires UniqueNames(r)
    ensures Lookup(Put(r, name, path), n) == if n == name then Some(path) else Lookup(r, n)
  {
    if r != [] && r[0].name != name {
      assert UniqueNames(r[1..]) by {
        assert forall i :: 0 <= i < |r| - 1 ==> r[1..][i] == r[i + 1];
      }
      PutLookup(r[1..], name, path, n);
    }
  }

  /** The update at the start of `play_quiz`: the errors theme is registered,
      pointing at the `Errors` folder, unless a theme of that name exists. */
  function EnsureErrorsTheme(r: Registry): (r': Registry)
    requires UniqueNames(r)
    ensures UniqueNames(r')
    ensures HasName(r, ErrorsTheme) ==> r' == r
    ensures !HasName(r, ErrorsTheme) ==> r' == r + [Theme(ErrorsTheme, ErrorsFolder)]
    ensures Lookup(r', ErrorsTheme).Some?
    ensures r' != []
  {
    if HasName(r, ErrorsTheme) then r
    else
      var r' := Put(r, ErrorsTheme, ErrorsFolder);
      assert r'[|r|].name == ErrorsTheme;
      r'
  }

  /** The line `save_themes` writes for one entry, without its terminator. */
  function FormatLine(t: Theme): (line: string)
    ensures |line| == |t.name| + |t.path| + 5
    ensures line[0] == '[' && line[|line| - 1] == ']'
  {
    "[" + t.name + Sep + t.path + "]"
  }

  /** The whole text `save_themes` writes: every entry's line followed by `\n`,
      in the registry's order. */
  function SaveThemes(r: Registry): (text: string)
    ensures text == [] <==> r == []
    ensures r != [] ==> text[|text| - 1] == '\n'
  {
    if r == [] then "" else FormatLine(r[0]) + "\n" + SaveThemes(r[1..])
  }

  /** The text between the brackets, split on `]-[`: an entry exactly when
      that gives two parts. */
  function ParseInner(inner: string): Option<Theme> {
    var parts := Split(inner, Sep);
    if |parts| == 2 then Some(Theme(parts[0], parts[1])) else None
  }

  /** `load_themes` on one line: the stripped line must start with `[`, end
      with `]` and the line must contain `]-[`; the text between the brackets
      is split on `]-[` and accepted only when that gives exactly two parts.
      Anything else is a malformed line (`None`), reported and skipped. */
  function ParseLine(line: string): (o: Option<Theme>)
    ensures o.Some? ==> Contains(line, Sep) && StartsWith(Strip(line), "[") && EndsWith(Strip(line), "]")
  {
    var s := Strip(line);
    if StartsWith(s, "[") && Contains(line, Sep) && EndsWith(s, "]") then
      assert s[0] == s[..1][0] && s[|s| - 1] == s[|s| - 1..][0];
      ParseInner(s[1..|s| - 1])
    else
      None
  }

  /** One iteration of `load_themes`: a line that parses stores its theme;
      a malformed one leaves the registry as it is. */
  function LoadLine(r: Registry, line: string): (r': Registry)
    requires UniqueNames(r)
    ensures UniqueNames(r')
  {
    match ParseLine(line)
    case None => r
    case Some(t) => Put(r, t.name, t.path)
  }

  /** The registry `load_themes` builds from a file's lines, read in order. */
  function LoadLines(lines: seq<string>): (r: Registry)
    ensures UniqueNames(r)
  {
    if lines == [] then [] else LoadLine(LoadLines(lines[..|lines| - 1]), lines[|lines| - 1])
  }

  /** `load_themes`: a missing file gives the empty registry; otherwise the
      lines are read in order and each well-formed one is stored. */
  method LoadThemes(file: Option<string>) returns (themes: Registry)
    ensures themes == if file.None? then [] else LoadLines(Lines(file.value))
  {
    themes := [];
    if file.None? {
      return;
    }
    var lines := Lines(file.value);
    var i := 0;
    while i < |lines|
      invariant 0 <= i <= |lines|
      invariant themes == LoadLines(lines[..i])
    {
      assert lines[..i + 1][..i] == lines[..i];
      themes := LoadLine(themes, lines[i]);
      i := i + 1;
    }
    assert lines[..i] == lines;
  }

  /** Neither half of the entry contains the separator. */
  predicate Separable(t: Theme) {
    !Contains(t.name, Sep) && !Contains(t.path, Sep)
  }

  /** The entry survives being written as one line and read back. */
  predicate Storable(t: Theme) {
    Separable(t) && NoLineBreak(t.name) && NoLineBreak(t.path)
  }

  /** The separator cannot overlap itself, so in `n + "]-[" + p` the first
      occurrence is the one written between the halves. */
  lemma SplitFormatted(n: string, p: string)
    requires Separable(Theme(n, p))
    ensures Split(n + Sep + p, Sep) == [n, p]
  {
    var s := n + Sep + p;
    assert s[|n|..|n| + 3] == Sep;
    assert OccursAt(s, Sep, |n|);
    forall j: nat | j < |n| ensures !OccursAt(s, Sep, j) {
      if j + 3 <= |n| {
        assert s[j..j + 3] == n[j..j + 3];
        assert !OccursAt(n, Sep, j);
      } else {
        assert s[|n|] == ']';
      }
    }
    assert FindFrom(s, Sep, 0) == |n|;
    SplitAtFirst(n, Sep, p);
    SplitWithout(p, Sep);
  }

  /** The inner text parses to `t` exactly when it is `t`'s name and path
      around the separator, neither of them containing it. */
  lemma ParseInnerIff(inner: string, t: Theme)
    ensures ParseInner(inner) == Some(t) <==> inner == t.name + Sep + t.path && Separable(t)
  {
    if ParseInner(inner) == Some(t) {
      SplitTwo(inner, Sep);
    }
    if inner == t.name + Sep + t.path && Separable(t) {
      SplitFormatted(t.name, t.path);
    }
  }

  /** A text that starts with `[` and ends with `]` is its inner text in
      brackets. */
  lemma Unbracket(s: string)
    requires StartsWith(s, "[") && EndsWith(s, "]")
    ensures |s| >= 2 && s == "[" + s[1..|s| - 1] + "]"
  {
    assert s[0] == s[..1][0] && s[|s| - 1] == s[|s| - 1..][0];
  }

  /** What a line that parses looks like once stripped. */
  lemma ParsedLineShape(line: string, t: Theme)
    requires ParseLine(line) == Some(t)
    ensures Strip(line) == FormatLine(t) && Separable(t)
  {
    var s := Strip(line);
    Unbracket(s);
    ParseInnerIff(s[1..|s| - 1], t);
    FormatLineParts(t);
  }

  /** The formatted line of an entry, its inner text and its separator. */
  lemma FormatLineParts(t: Theme)
    ensures var s := FormatLine(t);
      s == "[" + (t.name + Sep + t.path) + "]"
      && StartsWith(s, "[") && EndsWith(s, "]")
      && s[1..|s| - 1] == t.name + Sep + t.path
      && Contains(s, Sep)
  {
    var s := FormatLine(t);
    assert s == "[" + (t.name + Sep + t.path) + "]";
    assert s[..1] == "[" && s[|s| - 1..] == "]";
    assert s[1 + |t.name|..1 + |t.name| + 3] == Sep;
    assert OccursAt(s, Sep, 1 + |t.name|);
  }

  /** A line that strips to a formatted entry parses to that entry. */
  lemma FormattedLineParses(line: string, t: Theme)
    requires Strip(line) == FormatLine(t) && Separable(t)
    ensures ParseLine(line) == Some(t)
  {
    var i, j := StripIsSlice(line);
    FormatLineParts(t);
    ContainsOfSlice(line, i, j, Sep);
    ParseInnerIff(t.name + Sep + t.path, t);
  }

  /** A line parses to entry `t` exactly when, once stripped, it is `t`'s
      formatted line and neither half of `t` contains the separator. */
  lemma ParseLineIff(line: string, t: Theme)
    ensures ParseLine(line) == Some(t) <==> Strip(line) == FormatLine(t) && Separable(t)
  {
    if ParseLine(line) == Some(t) {
      ParsedLineShape(line, t);
    }
    if Strip(line) == FormatLine(t) && Separable(t) {
      FormattedLineParses(line, t);
    }
  }

  /** A registry line contains no line break when its entry has none. */
  lemma FormatLineNoBreak(t: Theme)
    requires NoLineBreak(t.name) && NoLineBreak(t.path)
    ensures NoLineBreak(FormatLine(t))
  {
    var l := FormatLine(t);
    forall k | 0 <= k < |l| ensures !IsLineBreak(l[k]) {
      if 1 <= k < 1 + |t.name| {
        assert l[k] == t.name[k - 1];
      } else if 4 + |t.name| <= k < 4 + |t.name| + |t.path| {
        assert l[k] == t.path[k - 4 - |t.name|];
      }
    }
  }

  /** The formatted lines of all entries, in order. */
  function FormatAll(r: Registry): seq<string> {
    seq(|r|, i requires 0 <= i < |r| => FormatLine(r[i]))
  }

  /** Reading the saved text line by line gives one formatted line per entry. */
  lemma {:induction false} LinesOfSave(r: Registry)
    requires forall t :: t in r ==> NoLineBreak(t.name) && NoLineBreak(t.path)
    ensures Lines(SaveThemes(r)) == FormatAll(r)
  {
    if r != [] {
      FormatLineNoBreak(r[0]);
      LinesCons(FormatLine(r[0]), SaveThemes(r[1..]));
      LinesOfSave(r[1..]);
      assert FormatAll(r) == [FormatLine(r[0])] + FormatAll(r[1..]);
    }
  }

  /** Loading the formatted lines of a registry rebuilds it entry by entry. */
  lemma {:induction false} LoadFormatted(r: Registry)
    requires UniqueNames(r)
    requires forall t :: t in r ==> Separable(t)
    ensures LoadLines(FormatAll(r)) == r
    decreases |r|
  {
    if r != [] {
      var n := |r| - 1;
      var t := r[n];
      assert FormatAll(r)[..n] == FormatAll(r[..n]);
      UniquePrefix(r);
      LoadFormatted(r[..n]);
      FormatLineParses(t);
      assert r[..n] + [t] == r;
    }
  }

  /** Dropping the last entry keeps the rest unique and separable, and the
      last entry's name is then absent. */
  lemma UniquePrefix(r: Registry)
    requires r != [] && UniqueNames(r)
    requires forall t :: t in r ==> Separable(t)
    ensures var n := |r| - 1;
      UniqueNames(r[..n]) && (forall t :: t in r[..n] ==> Separable(t)) && !HasName(r[..n], r[n].name)
  {
    var n := |r| - 1;
    assert forall i :: 0 <= i < n ==> r[..n][i] == r[i];
  }

  /** The formatted line of a separable entry parses back to it. */
  lemma FormatLineParses(t: Theme)
    requires Separable(t)
    ensures ParseLine(FormatLine(t)) == Some(t)
  {
    StripKeeps(FormatLine(t));
    ParseLineIff(FormatLine(t), t);
  }

  /** Round trip of `save_themes` and `load_themes`: writing a registry and
      reading the file back gives the same names, paths and order, provided no
      name or path contains `]-[` or a line break. */
  lemma SaveLoadRoundTrip(r: Registry)
    requires UniqueNames(r)
    requires forall t :: t in r ==> Storable(t)
    ensures LoadLines(Lines(SaveThemes(r))) == r
  {
    LinesOfSave(r);
    LoadFormatted(r);
  }

  /** Registering brings in no entry but the new one. */
  lemma {:induction false} PutEntries(r: Registry, name: string, path: string)
    requires UniqueNames(r)
    ensures forall t :: t in Put(r, name, path) ==> t in r || t == Theme(name, path)
  {
    if r != [] && r[0].name != name {
      assert UniqueNames(r[1..]) by {
        assert forall i :: 0 <= i < |r| - 1 ==> r[1..][i] == r[i + 1];
      }
      PutEntries(r[1..], name, path);
    }
  }

  /** An entry read from a line without line breaks is storable. */
  lemma ParsedStorable(line: string, t: Theme)
    requires NoLineBreak(line) && ParseLine(line) == Some(t)
    ensures Storable(t)
  {
    ParsedLineShape(line, t);
    StripNoLineBreak(line);
    FormattedHalvesNoBreak(t);
  }

  /** The halves of an entry whose line has no line break have none either. */
  lemma FormattedHalvesNoBreak(t: Theme)
    requires NoLineBreak(FormatLine(t))
    ensures NoLineBreak(t.name) && NoLineBreak(t.path)
  {
    var s := FormatLine(t);
    var n, p := t.name, t.path;
    assert s == ("[" + n) + (Sep + p + "]");
    forall k | 0 <= k < |n| ensures !IsLineBreak(n[k]) {
      assert s[1 + k] == n[k];
    }
    assert s[1 + |n|..] == Sep + p + "]";
    forall k | 0 <= k < |p| ensures !IsLineBreak(p[k]) {
      assert s[1 + |n|..][3 + k] == p[k];
    }
  }

  /** Every entry the loader builds from lines without line breaks is
      storable. */
  lemma {:induction false} LoadedStorable(lines: seq<string>)
    requires forall i :: 0 <= i < |lines| ==> NoLineBreak(lines[i])
    ensures forall t :: t in LoadLines(lines) ==> Storable(t)
  {
    if lines != [] {
      var n := |lines| - 1;
      var before := lines[..n];
      assert forall i :: 0 <= i < n ==> before[i] == lines[i];
      LoadedStorable(before);
      var r := LoadLines(before);
      match ParseLine(lines[n]) {
        case None =>
        case Some(t) =>
          ParsedStorable(lines[n], t);
          PutEntries(r, t.name, t.path);
      }
    }
  }

  /** Saving and reloading changes no registry that loading a file gives. */
  lemma ReloadIsStable(text: string)
    ensures var r := LoadLines(Lines(text));
      LoadLines(Lines(SaveThemes(r))) == r
  {
    LoadedStorable(Lines(text));
    SaveLoadRoundTrip(LoadLines(Lines(text)));
  }

  /** `c]-[b` with `c` not `]` splits before `b` at its first separator. */
  lemma SplitAfterChar(c: char, b: string)
    requires c != ']'
    ensures Split([c] + Sep + b, Sep) == [[c]] + Split(b, Sep)
  {
    var s := [c] + Sep + b;
    assert s[0] == c && s[1..4] == Sep;
    assert !OccursAt(s, Sep, 0) && OccursAt(s, Sep, 1);
    SplitAtFirst([c], Sep, b);
  }

  /** The text between the brackets of `[a]-[b]-[p]` splits into three
      parts, so the line is rejected. */
  lemma ThreePartsRejected(a: char, b: char, p: string)
    requires a != ']' && b != ']'
    ensures ParseInner([a] + Sep + [b] + Sep + p) == None
  {
    var rest := [b] + Sep + p;
    assert [a] + Sep + [b] + Sep + p == [a] + Sep + rest;
    SplitAfterChar(a, rest);
    SplitAfterChar(b, p);
  }

  /** A bracketed line whose inner text does not split into two parts is
      malformed. */
  lemma BracketedRejected(inner: string)
    requires ParseInner(inner) == None
    ensures ParseLine("[" + inner + "]") == None
  {
    var line := "[" + inner + "]";
    StripKeeps(line);
    assert line[1..|line| - 1] == inner;
  }

  /** A theme's line has no line break when its name and path have none. */
  lemma FormattedNoBreak(t: Theme)
    requires NoLineBreak(t.name) && NoLineBreak(t.path)
    ensures NoLineBreak(FormatLine(t))
  {
    var s, n, p := FormatLine(t), t.name, t.path;
    forall k | 0 <= k < |s| ensures !IsLineBreak(s[k]) {
      if 1 <= k < 1 + |n| {
        assert s[k] == n[k - 1];
      } else if 4 + |n| <= k < 4 + |n| + |p| {
        assert s[k] == p[k - 4 - |n|];
      }
    }
  }

  /** Saving a one-entry registry and reading it back yields that entry's
      line alone. */
  lemma SingleSavedLines(t: Theme)
    requires NoLineBreak(FormatLine(t))
    ensures Lines(SaveThemes([t])) == [FormatLine(t)]
  {
    assert SaveThemes([t]) == FormatLine(t) + "\n" + "" by {
      assert [t][1..] == [];
    }
    LinesCons(FormatLine(t), "");
  }

  /** A theme whose name holds `]-[` is written as a line that the loader
      rejects, so after saving and reloading it is gone. */
  lemma SeparatorInNameLost()
    ensures Lookup(LoadLines(Lines(SaveThemes(Put([], "a]-[b", "p")))), "a]-[b") == None
  {
    var t := Theme("a]-[b", "p");
    assert Put([], "a]-[b", "p") == [t];
    assert NoLineBreak(t.name) && NoLineBreak(t.path);
    FormattedNoBreak(t);
    SingleSavedLines(t);
    assert t.name == ['a'] + Sep + ['b'];
    ThreePartsRejected('a', 'b', "p");
    assert FormatLine(t) == "[" + (t.name + Sep + t.path) + "]";
    BracketedRejected(t.name + Sep + t.path);
    assert [FormatLine(t)][..0] == [];
  }

  /** `load_quiz_paths`: registering a theme, saving and reading the file
      back finds the new path under that name, and every other name as it
      was, provided the new entry is storable too. */
  lemma RegisterThenReload(r: Registry, name: string, path: string)
    requires UniqueNames(r)
    requires forall t :: t in r ==> Storable(t)
    requires Storable(Theme(name, path))
    ensures Lookup(LoadLines(Lines(SaveThemes(Put(r, name, path)))), name) == Some(path)
    ensures forall n :: n != name ==>
      Lookup(LoadLines(Lines(SaveThemes(Put(r, name, path)))), n) == Lookup(r, n)
  {
    PutEntries(r, name, path);
    SaveLoadRoundTrip(Put(r, name, path));
    forall n | true ensures Lookup(Put(r, name, path), n) == if n == name then Some(path) else Lookup(r, n) {
      PutLookup(r, name, path, n);
    }
  }

  /** The lines that parse, in file order. */
  function WellFormedLines(lines: seq<string>): seq<string> {
    if lines == [] then []
    else
      var rest := WellFormedLines(lines[..|lines| - 1]);
      if ParseLine(lines[|lines| - 1]).Some? then rest + [lines[|lines| - 1]] else rest
  }

  lemma {:induction false} WellFormedLinesAppend(a: seq<string>, b: seq<string>)
    ensures WellFormedLines(a + b) == WellFormedLines(a) + WellFormedLines(b)
    decreases |b|
  {
    if b == [] {
      assert a + b == a;
    } else {
      var n := |b| - 1;
      assert (a + b)[..|a + b| - 1] == a + b[..n];
      WellFormedLinesAppend(a, b[..n]);
    }
  }

  /** Malformed lines do not contribute: loading all lines and loading only
      the well-formed ones give the same registry. */
  lemma {:induction false} LoadIgnoresMalformed(lines: seq<string>)
    ensures LoadLines(lines) == LoadLines(WellFormedLines(lines))
  {
    if lines != [] {
      var n := |lines| - 1;
      LoadIgnoresMalformed(lines[..n]);
      var kept := WellFormedLines(lines[..n]);
      if ParseLine(lines[n]).Some? {
        assert (kept + [lines[n]])[..|kept|] == kept;
      }
    }
  }

  /** A malformed line anywhere in the file can be deleted without changing
      what is loaded: parsing continues with the lines after it. */
  lemma MalformedLineSkipped(before: seq<string>, line: string, after: seq<string>)
    requires ParseLine(line).None?
    ensures LoadLines(before + [line] + after) == LoadLines(before + after)
  {
    WellFormedLinesAppend(before + [line], after);
    WellFormedLinesAppend(before, [line]);
    WellFormedLinesAppend(before, after);
    assert [line][..0] == [];
    LoadIgnoresMalformed(before + [line] + after);
    LoadIgnoresMalformed(before + after);
  }

  /** Reference reading of the file for one name: the path on the last
      well-formed line that names it. */
  function LastPath(lines: seq<string>, name: string): Option<string> {
    if lines == [] then None
    else
      match ParseLine(lines[|lines| - 1])
      case Some(t) =>
        if t.name == name then Some(t.path) else LastPath(lines[..|lines| - 1], name)
      case None => LastPath(lines[..|lines| - 1], name)
  }

  /** Later lines override earlier ones: the loaded path of every name is the
      one on the last well-formed line naming it, and names no well-formed line
      mentions are absent. */
  lemma {:induction false} LoadLookup(lines: seq<string>, name: string)
    ensures Lookup(LoadLines(lines), name) == LastPath(lines, name)
  {
    if lines != [] {
      var before := lines[..|lines| - 1];
      LoadLookup(before, name);
      match ParseLine(lines[|lines| - 1]) {
        case None =>
        case Some(t) => PutLookup(LoadLines(before), t.name, t.path, name);
      }
    }
  }
}
