/** The few Python string operations the quiz program relies on, over
    `string` (a sequence of Unicode scalar values): `strip`, `in`, `split`,
    `startswith`/`endswith`, reading a text file line by line, `isdigit`/`int`,
    the `02d` format and the ordering `sorted` uses. */
module Text {

  /** Characters for which Python's `str.isspace` holds; `str.strip()` with no
      argument removes exactly these at both ends. */
  predicate IsSpace(c: char) {
    c == ' ' || ('\t' <= c <= '\r') || ('\U{1c}' <= c <= '\U{1f}')
    || c == '\U{85}' || c == '\U{a0}' || c == '\U{1680}'
    || ('\U{2000}' <= c <= '\U{200a}') || c == '\U{2028}' || c == '\U{2029}'
    || c == '\U{202f}' || c == '\U{205f}' || c == '\U{3000}'
  }

  /** Index of the first non-space character at or after `k`. */
  function SkipSpaces(s: string, k: nat): (i: nat)
    requires k <= |s|
    ensures k <= i <= |s|
    ensures forall j :: k <= j < i ==> IsSpace(s[j])
    ensures i < |s| ==> !IsSpace(s[i])
    decreases |s| - k
  {
    if k < |s| && IsSpace(s[k]) then SkipSpaces(s, k + 1) else k
  }

  /** End of `s[lo..j]` once its trailing spaces are cut off. */
  function TrimSpaces(s: string, lo: nat, j: nat): (e: nat)
    requires lo <= j <= |s|
    ensures lo <= e <= j
    ensures forall k :: e <= k < j ==> IsSpace(s[k])
    ensures e > lo ==> !IsSpace(s[e - 1])
    decreases j
  {
    if j > lo && IsSpace(s[j - 1]) then TrimSpaces(s, lo, j - 1) else j
  }

  /** Python's `s.strip()`: the slice of `s` between its leading and its
      trailing whitespace. */
  function Strip(s: string): (r: string)
    ensures |r| <= |s|
    ensures r == [] || (!IsSpace(r[0]) && !IsSpace(r[|r| - 1]))
    ensures r == [] <==> forall k :: 0 <= k < |s| ==> IsSpace(s[k])
  {
    var i := SkipSpaces(s, 0);
    s[i..TrimSpaces(s, i, |s|)]
  }

  /** A string that starts and ends with a non-space is its own strip. */
  lemma StripKeeps(s: string)
    requires s != [] && !IsSpace(s[0]) && !IsSpace(s[|s| - 1])
    ensures Strip(s) == s
  {
    var i := SkipSpaces(s, 0);
    assert i == 0;
    var e := TrimSpaces(s, i, |s|);
    assert e == |s|;
  }

  /** What `strip` returns is the input less a run of whitespace at its
      start and a run of whitespace at its end. */
  lemma StripIsSlice(s: string) returns (i: nat, j: nat)
    ensures i <= j <= |s| && Strip(s) == s[i..j]
    ensures forall k :: 0 <= k < i ==> IsSpace(s[k])
    ensures forall k :: j <= k < |s| ==> IsSpace(s[k])
  {
    i := SkipSpaces(s, 0);
    j := TrimSpaces(s, i, |s|);
  }

  /** Stripping a text without line breaks leaves none. */
  lemma StripNoLineBreak(s: string)
    requires NoLineBreak(s)
    ensures NoLineBreak(Strip(s))
  {
    var i, j := StripIsSlice(s);
    assert forall k :: 0 <= k < j - i ==> s[i..j][k] == s[i + k];
  }

  /** `pat` occurs in `s` at position `i`. */
  predicate OccursAt(s: string, pat: string, i: nat) {
    i + |pat| <= |s| && s[i..i + |pat|] == pat
  }

  /** Python's `pat in s`. */
  predicate Contains(s: string, pat: string) {
    exists i: nat :: i <= |s| && OccursAt(s, pat, i)
  }

  /** An occurrence inside a slice is an occurrence in the whole string. */
  lemma ContainsOfSlice(s: string, i: nat, j: nat, pat: string)
    requires i <= j <= |s| && Contains(s[i..j], pat)
    ensures Contains(s, pat)
  {
    var k: nat :| k <= |s[i..j]| && OccursAt(s[i..j], pat, k);
    assert forall m :: 0 <= m < |pat| ==> pat[m] == s[i..j][k + m] == s[i + k + m];
    assert s[i + k..i + k + |pat|] == pat;
    assert OccursAt(s, pat, i + k);
  }

  /** Position of the first occurrence of `pat` at or after `k`, or -1: the
      search `str.split` performs. */
  function FindFrom(s: string, pat: string, k: nat): (r: int)
    requires |pat| > 0
    ensures r == -1 || (k <= r && OccursAt(s, pat, r))
    ensures forall j: nat :: k <= j && (r == -1 || j < r) ==> !OccursAt(s, pat, j)
    decreases |s| - k
  {
    if k + |pat| > |s| then -1
    else if OccursAt(s, pat, k) then k
    else FindFrom(s, pat, k + 1)
  }

  /** Joins parts with a separator between consecutive ones: the inverse of `Split`. */
  function Join(parts: seq<string>, sep: string): string
    requires |parts| > 0
  {
    if |parts| == 1 then parts[0] else parts[0] + sep + Join(parts[1..], sep)
  }

  /** The part before the first occurrence of a pattern does not contain it. */
  lemma NoOccurrenceBefore(s: string, pat: string, i: nat)
    requires |pat| > 0 && i <= |s|
    requires forall j: nat :: j < i ==> !OccursAt(s, pat, j)
    ensures !Contains(s[..i], pat)
  {
    if Contains(s[..i], pat) {
      var j: nat :| j <= i && OccursAt(s[..i], pat, j);
      assert s[..i][j..j + |pat|] == s[j..j + |pat|];
      assert OccursAt(s, pat, j);
      assert false;
    }
  }

  /** Python's `s.split(pat)` with a non-empty separator: the pieces between
      the non-overlapping occurrences of `pat`, scanned from the left. */
  function Split(s: string, pat: string): (parts: seq<string>)
    requires |pat| > 0
    ensures |parts| > 0
    decreases |s|
  {
    var i := FindFrom(s, pat, 0);
    if i < 0 then [s] else [s[..i]] + Split(s[i + |pat|..], pat)
  }

  /** The parts of a split join back, with the separator, into the text, and
      none of them contains the separator. */
  lemma {:induction false} SplitParts(s: string, pat: string)
    requires |pat| > 0
    ensures Join(Split(s, pat), pat) == s
    ensures forall i :: 0 <= i < |Split(s, pat)| ==> !Contains(Split(s, pat)[i], pat)
    decreases |s|
  {
    var i := FindFrom(s, pat, 0);
    if i >= 0 {
      var rest := s[i + |pat|..];
      SplitParts(rest, pat);
      NoOccurrenceBefore(s, pat, i);
      assert s == s[..i] + pat + rest;
      var parts := Split(s, pat);
      assert parts == [s[..i]] + Split(rest, pat);
      assert parts[1..] == Split(rest, pat);
      assert forall k :: 1 <= k < |parts| ==> parts[k] == Split(rest, pat)[k - 1];
    }
  }

  /** A text that splits into two parts is those parts around the separator. */
  lemma SplitTwo(s: string, pat: string)
    requires |pat| > 0 && |Split(s, pat)| == 2
    ensures var parts := Split(s, pat);
      s == parts[0] + pat + parts[1] && !Contains(parts[0], pat) && !Contains(parts[1], pat)
  {
    SplitParts(s, pat);
    var parts := Split(s, pat);
    assert parts[1..] == [parts[1]];
  }

  /** When the first occurrence of `pat` in `a + pat + b` is the one after `a`,
      splitting yields `a` followed by the pieces of `b`. */
  lemma SplitAtFirst(a: string, pat: string, b: string)
    requires |pat| > 0
    requires FindFrom(a + pat + b, pat, 0) == |a|
    ensures Split(a + pat + b, pat) == [a] + Split(b, pat)
  {
    var s := a + pat + b;
    assert s[..|a|] == a;
    assert s[|a| + |pat|..] == b;
  }

  /** A string that does not contain `pat` splits into itself alone. */
  lemma SplitWithout(s: string, pat: string)
    requires |pat| > 0 && !Contains(s, pat)
    ensures Split(s, pat) == [s]
  {
    assert FindFrom(s, pat, 0) < 0;
  }

  /** The first separator of `a + [c] + b` is the first one of `a`, or the
      one after `a` when `a` has none. */
  lemma FirstSeparator(a: string, c: char, b: string)
    ensures var i := FindFrom(a, [c], 0);
      FindFrom(a + [c] + b, [c], 0) == if i < 0 then |a| else i
  {
    var s := a + [c] + b;
    var i := FindFrom(a, [c], 0);
    var k := FindFrom(s, [c], 0);
    var e := if i < 0 then |a| else i;
    assert OccursAt(s, [c], e) by {
      if i >= 0 {
        assert a[i..i + 1] == s[i..i + 1];
      }
    }
    if k < e {
      assert s[k..k + 1] == a[k..k + 1];
      assert OccursAt(a, [c], k);
      assert false;
    }
  }

  /** Splitting at a first separator found at `i`. */
  lemma SplitUnfold(s: string, c: char, i: nat)
    requires FindFrom(s, [c], 0) == i
    ensures i < |s| && Split(s, [c]) == [s[..i]] + Split(s[i + 1..], [c])
  {
  }

  /** The case of `SplitConcat` where `a` holds no separator. */
  lemma SplitConcatFirst(a: string, c: char, b: string)
    requires FindFrom(a, [c], 0) < 0
    ensures Split(a + [c] + b, [c]) == Split(a, [c]) + Split(b, [c])
  {
    FirstSeparator(a, c, b);
    SplitWithout(a, [c]);
    SplitAtFirst(a, [c], b);
  }

  /** When `a` holds a separator, at `i`, so does `a + [c] + b`. */
  lemma SplitPastFirst(a: string, c: char, b: string, i: nat)
    requires FindFrom(a, [c], 0) == i
    ensures Split(a + [c] + b, [c]) == [a[..i]] + Split(a[i + 1..] + [c] + b, [c])
  {
    FirstSeparator(a, c, b);
    SplitUnfold(a + [c] + b, c, i);
    CutInsideFirst(a, [c] + b, i);
    assert a + [c] + b == a + ([c] + b);
    assert a[i + 1..] + [c] + b == a[i + 1..] + ([c] + b);
  }

  /** Cutting `a + b` at a position inside `a`. */
  lemma CutInsideFirst(a: string, b: string, i: nat)
    requires i < |a|
    ensures (a + b)[..i] == a[..i] && (a + b)[i + 1..] == a[i + 1..] + b
  {
  }

  /** The case of `SplitConcat` where `a` holds a separator, at `i`, given
      the property for what follows it. */
  lemma SplitConcatNext(a: string, c: char, b: string, i: nat)
    requires FindFrom(a, [c], 0) == i
    requires Split(a[i + 1..] + [c] + b, [c]) == Split(a[i + 1..], [c]) + Split(b, [c])
    ensures Split(a + [c] + b, [c]) == Split(a, [c]) + Split(b, [c])
  {
    SplitPastFirst(a, c, b, i);
    SplitUnfold(a, c, i);
    ConsAssoc(a[..i], Split(a[i + 1..], [c]), Split(b, [c]));
  }

  lemma ConsAssoc(x: string, p: seq<string>, q: seq<string>)
    ensures [x] + (p + q) == ([x] + p) + q
  {
  }

  /** Splitting on a one-character separator distributes over an occurrence
      of that character: the pieces of `a` followed by the pieces of `b`. */
  lemma {:induction false} SplitConcat(a: string, c: char, b: string)
    ensures Split(a + [c] + b, [c]) == Split(a, [c]) + Split(b, [c])
    decreases |a|
  {
    var i := FindFrom(a, [c], 0);
    if i < 0 {
      SplitConcatFirst(a, c, b);
    } else {
      SplitConcat(a[i + 1..], c, b);
      SplitConcatNext(a, c, b, i);
    }
  }

  /** `s` starts with `p` (Python's `s.startswith(p)`). */
  predicate StartsWith(s: string, p: string) {
    |p| <= |s| && s[..|p|] == p
  }

  /** `s` ends with `q` (Python's `s.endswith(q)`). */
  predicate EndsWith(s: string, q: string) {
    |q| <= |s| && s[|s| - |q|..] == q
  }

  /** The characters that end a line when a file is read in text mode. */
  predicate IsLineBreak(c: char) {
    c == '\n' || c == '\r'
  }

  predicate NoLineBreak(s: string) {
    forall i :: 0 <= i < |s| ==> !IsLineBreak(s[i])
  }

  /** Index of the first line break at or after `k`, or `|s|`. */
  function LineEnd(s: string, k: nat): (e: nat)
    requires k <= |s|
    ensures k <= e <= |s|
    ensures e < |s| ==> IsLineBreak(s[e])
    ensures forall j :: k <= j < e ==> !IsLineBreak(s[j])
    decreases |s| - k
  {
    if k == |s| || IsLineBreak(s[k]) then k else LineEnd(s, k + 1)
  }

  /** The lines `for line in file` yields for a file opened in text mode, with
      their terminators removed: `\n`, `\r` and `\r\n` each end a line, and a
      terminator at the very end does not start another line. */
  function Lines(s: string): (ls: seq<string>)
    ensures forall i :: 0 <= i < |ls| ==> NoLineBreak(ls[i])
    ensures s == [] <==> ls == []
    decreases |s|
  {
    if s == [] then []
    else
      var e := LineEnd(s, 0);
      if e == |s| then [s]
      else if s[e] == '\r' && e + 1 < |s| && s[e + 1] == '\n' then [s[..e]] + Lines(s[e + 2..])
      else [s[..e]] + Lines(s[e + 1..])
  }

  /** A line written with a `\n` terminator is read back as that line. */
  lemma LinesCons(l: string, rest: string)
    requires NoLineBreak(l)
    ensures Lines(l + "\n" + rest) == [l] + Lines(rest)
  {
    var s := l + "\n" + rest;
    var e := LineEnd(s, 0);
    assert IsLineBreak(s[|l|]);
    assert forall j :: 0 <= j < |l| ==> s[j] == l[j];
    assert e == |l|;
    assert s[..e] == l;
    assert s[e + 1..] == rest;
  }

  /** A line written with a `\r\n` terminator is read back as that line. */
  lemma LinesCrLf(l: string, rest: string)
    requires NoLineBreak(l)
    ensures Lines(l + "\r\n" + rest) == [l] + Lines(rest)
  {
    var s := l + "\r\n" + rest;
    assert IsLineBreak(s[|l|]);
    assert forall j :: 0 <= j < |l| ==> s[j] == l[j];
    assert LineEnd(s, 0) == |l|;
    assert s[|l|] == '\r' && s[|l| + 1] == '\n';
    assert s[..|l|] == l;
    assert s[|l| + 2..] == rest;
  }

  /** A line ended by a lone `\r` is read back as that line. */
  lemma LinesCr(l: string, rest: string)
    requires NoLineBreak(l)
    requires rest == [] || rest[0] != '\n'
    ensures Lines(l + "\r" + rest) == [l] + Lines(rest)
  {
    var s := l + "\r" + rest;
    assert IsLineBreak(s[|l|]);
    assert forall j :: 0 <= j < |l| ==> s[j] == l[j];
    assert LineEnd(s, 0) == |l|;
    assert |l| + 1 < |s| ==> s[|l| + 1] == rest[0];
    assert s[..|l|] == l;
    assert s[|l| + 1..] == rest;
  }

  /** A last line without a terminator is still read. */
  lemma LinesUnterminated(l: string)
    requires l != [] && NoLineBreak(l)
    ensures Lines(l) == [l]
  {
    assert LineEnd(l, 0) == |l|;
  }

  predicate IsDigit(c: char) {
    '0' <= c <= '9'
  }

  predicate AllDigits(s: string) {
    forall i :: 0 <= i < |s| ==> IsDigit(s[i])
  }

  /** Python's `s.isdigit()`, for ASCII digits: non-empty and digits only. */
  predicate IsDigits(s: string) {
    |s| > 0 && AllDigits(s)
  }

  /** Python's `int(s)` on a string of decimal digits (leading zeros allowed). */
  function DigitsValue(s: string): nat
    requires AllDigits(s)
    decreases |s|
  {
    if s == [] then 0 else DigitsValue(s[..|s| - 1]) * 10 + (s[|s| - 1] as int - '0' as int)
  }

  function DigitChar(d: nat): (c: char)
    requires d < 10
    ensures IsDigit(c) && c as int - '0' as int == d
  {
    ('0' as int + d) as char
  }

  /** Python's `str(n)` for a natural number. */
  function DecimalString(n: nat): (s: string)
    ensures |s| > 0
    ensures n < 10 <==> |s| == 1
    decreases n
  {
    if n < 10 then [DigitChar(n)] else DecimalString(n / 10) + [DigitChar(n % 10)]
  }

  /** `int(str(n)) == n`, and `str(n)` is all digits. */
  lemma {:induction false} DecimalRoundTrip(n: nat)
    ensures IsDigits(DecimalString(n)) && DigitsValue(DecimalString(n)) == n
    decreases n
  {
    var s := DecimalString(n);
    if n >= 10 {
      DecimalRoundTrip(n / 10);
      assert s[..|s| - 1] == DecimalString(n / 10);
    } else {
      assert s[..|s| - 1] == [];
    }
  }

  /** `str(n)` of a positive number does not start with `0`. */
  lemma {:induction false} LeadingDigit(n: nat)
    requires n >= 1
    ensures DecimalString(n)[0] != '0'
    decreases n
  {
    if n >= 10 {
      LeadingDigit(n / 10);
      assert DecimalString(n)[0] == DecimalString(n / 10)[0];
    }
  }

  /** Python's `f"{n:02d}"` for a natural number: its decimal digits, padded
      with zeros on the left to at least two, and no wider than that padding
      needs. */
  function Pad2(n: nat): (s: string)
    ensures |s| >= 2 && IsDigits(s) && DigitsValue(s) == n
    ensures |s| == 2 || s[0] != '0'
  {
    DecimalRoundTrip(n);
    if n < 10 then
      var s := "0" + DecimalString(n);
      assert s[..|s| - 1] == "0" && s[..|s| - 1][..0] == [];
      s
    else
      LeadingDigit(n);
      DecimalString(n)
  }

  /** Different numbers are formatted to different strings. */
  lemma Pad2Injective(m: nat, n: nat)
    requires Pad2(m) == Pad2(n)
    ensures m == n
  {
  }

  /** Python's `a <= b` on strings: lexicographic by code point, a prefix
      before every longer string it starts. */
  predicate LexLe(a: string, b: string)
    decreases |a|
  {
    a == [] || (b != [] && (a[0] < b[0] || (a[0] == b[0] && LexLe(a[1..], b[1..]))))
  }

  /** Every string sorts no later than itself. */
  lemma {:induction false} LexLeReflexive(a: string)
    ensures LexLe(a, a)
    decreases |a|
  {
    if a != [] {
      LexLeReflexive(a[1..]);
    }
  }

  lemma {:induction false} LexLeTotal(a: string, b: string)
    ensures LexLe(a, b) || LexLe(b, a)
    decreases |a|
  {
    if a != [] && b != [] && a[0] == b[0] {
      LexLeTotal(a[1..], b[1..]);
    }
  }

  lemma {:induction false} LexLeTransitive(a: string, b: string, c: string)
    requires LexLe(a, b) && LexLe(b, c)
    ensures LexLe(a, c)
    decreases |a|
  {
    if a != [] && a[0] == b[0] && b[0] == c[0] {
      LexLeTransitive(a[1..], b[1..], c[1..]);
    }
  }

  lemma {:induction false} LexLeAntisymmetric(a: string, b: string)
    requires LexLe(a, b) && LexLe(b, a)
    ensures a == b
    decreases |a|
  {
    if a != [] {
      LexLeAntisymmetric(a[1..], b[1..]);
      assert a == [a[0]] + a[1..] && b == [b[0]] + b[1..];
    }
  }
}
