/** The choices `play_quiz` reads before a session: which theme (a number
    into the registry), which quiz files of that theme's folder (a
    comma-separated list of numbers). */
module Selection {
  import opened Wrappers
  import opened Text
  import opened ThemeRegistry

  /** `[file for file in os.listdir(theme_path) if file.endswith('.json')]`:
      the quiz files of a folder listing, in listing order. */
  function QuizFiles(listing: seq<string>): (quizzes: seq<string>)
    ensures forall f :: f in quizzes <==> f in listing && EndsWith(f, ".json")
    ensures |quizzes| <= |listing|
  {
    if listing == [] then []
    else (if EndsWith(listing[0], ".json") then [listing[0]] else []) + QuizFiles(listing[1..])
  }

  /** The filter keeps the listing's order: the quiz files of two listings
      one after the other are those of the first, then those of the second. */
  lemma {:induction false} QuizFilesAppend(a: seq<string>, b: seq<string>)
    ensures QuizFiles(a + b) == QuizFiles(a) + QuizFiles(b)
  {
    if a == [] {
      assert a + b == b;
    } else {
      assert (a + b)[0] == a[0] && (a + b)[1..] == a[1..] + b;
      QuizFilesAppend(a[1..], b);
    }
  }

  /** A single name is kept exactly when it ends in `.json`. */
  lemma QuizFilesSingle(f: string)
    ensures QuizFiles([f]) == if EndsWith(f, ".json") then [f] else []
  {
    assert [f][1..] == [];
  }

  /** What the theme prompt leads to. */
  datatype ThemeChoice = Cancelled | Rejected | Chosen(theme: Theme)

  /** The theme prompt: `n` is the number typed (`None` when `int()` fails).
      `n - 1` indexes the registry's entries as a Python list, so negative
      indexes count from the end; `0` cancels and an index outside the list
      (`IndexError`) or a non-number (`ValueError`) is rejected. */
  function SelectTheme(themes: Registry, answer: Option<int>): (c: ThemeChoice)
    ensures c == Cancelled <==> answer == Some(0)
    ensures c.Chosen? <==> answer.Some? && answer.value != 0 && 1 - |themes| <= answer.value <= |themes|
    ensures c.Chosen? ==> c.theme in themes
    ensures answer.Some? && 1 <= answer.value <= |themes| ==> c == Chosen(themes[answer.value - 1])
    ensures answer.Some? && 1 - |themes| <= answer.value < 0 ==> c == Chosen(themes[|themes| + answer.value - 1])
  {
    match answer
    case None => Rejected
    case Some(n) =>
      var index := n - 1;
      if index == -1 then Cancelled
      else if 0 <= index < |themes| then Chosen(themes[index])
      else if -|themes| <= index < 0 then Chosen(themes[|themes| + index])
      else Rejected
  }

  /** Typing `-1` does not fail: it selects the second-to-last theme. */
  lemma MinusOneSelectsSecondToLast(themes: Registry)
    requires |themes| >= 2
    ensures SelectTheme(themes, Some(-1)) == Chosen(themes[|themes| - 2])
  {
  }

  /** A token of the quiz prompt that the comprehension keeps: all digits
      and, as a number, between 1 and the number of quizzes. */
  predicate SelectsQuiz(token: string, count: nat) {
    IsDigits(token) && 0 < DigitsValue(token) <= count
  }

  /** What one token contributes: `quizzes[int(i) - 1]` when it is kept. */
  function PickOne(token: string, quizzes: seq<string>): (files: seq<string>)
    ensures |files| <= 1
    ensures forall f :: f in files ==> f in quizzes
  {
    if SelectsQuiz(token, |quizzes|) then [quizzes[DigitsValue(token) - 1]] else []
  }

  /** The comprehension over the tokens: each kept token `i` contributes
      `quizzes[int(i) - 1]`, in token order. */
  function PickQuizzes(tokens: seq<string>, quizzes: seq<string>): (files: seq<string>)
    ensures |files| <= |tokens|
    ensures forall f :: f in files ==> f in quizzes
  {
    if tokens == [] then [] else PickOne(tokens[0], quizzes) + PickQuizzes(tokens[1..], quizzes)
  }

  /** `[quizzes[int(i) - 1] for i in selected_indices.split(',') if
      i.isdigit() and 0 < int(i) <= len(quizzes)]`. */
  function SelectFiles(input: string, quizzes: seq<string>): (files: seq<string>)
    ensures |files| <= |Split(input, ",")|
    ensures forall f :: f in files ==> f in quizzes
  {
    PickQuizzes(Split(input, ","), quizzes)
  }

  /** The quiz prompt: `0` (once stripped) cancels, anything else is
      filtered into a list of files, possibly empty. */
  function SelectQuizzes(input: string, quizzes: seq<string>): (r: Option<seq<string>>)
    ensures r.None? <==> Strip(input) == "0"
    ensures r.Some? ==> forall f :: f in r.value ==> f in quizzes
  {
    if Strip(input) == "0" then None else Some(SelectFiles(input, quizzes))
  }

  lemma {:induction false} PickQuizzesAppend(a: seq<string>, b: seq<string>, quizzes: seq<string>)
    ensures PickQuizzes(a + b, quizzes) == PickQuizzes(a, quizzes) + PickQuizzes(b, quizzes)
  {
    if a == [] {
      assert a + b == b;
    } else {
      assert (a + b)[0] == a[0] && (a + b)[1..] == a[1..] + b;
      PickQuizzesAppend(a[1..], b, quizzes);
    }
  }

  /** The selection of two comma-joined parts is the selection of the first
      followed by that of the second: order and repetitions are kept. */
  lemma SelectConcat(a: string, b: string, quizzes: seq<string>)
    ensures SelectFiles(a + "," + b, quizzes) == SelectFiles(a, quizzes) + SelectFiles(b, quizzes)
  {
    SplitConcat(a, ',', b);
    PickQuizzesAppend(Split(a, ","), Split(b, ","), quizzes);
  }

  /** A single token selects `quizzes[n - 1]` when it is a number `n` in range,
      and nothing (without an error) otherwise. */
  lemma SelectToken(token: string, quizzes: seq<string>)
    requires !Contains(token, ",")
    ensures SelectFiles(token, quizzes) ==
      if SelectsQuiz(token, |quizzes|) then [quizzes[DigitsValue(token) - 1]] else []
  {
    SplitWithout(token, ",");
  }

  /** A decimal numeral has no comma in it. */
  lemma DigitsHaveNoComma(s: string)
    requires AllDigits(s)
    ensures !Contains(s, ",")
  {
    forall i: nat | i <= |s| ensures !OccursAt(s, ",", i) {
      if i + 1 <= |s| {
        assert s[i..i + 1][0] == s[i];
      }
    }
  }

  /** The text `n1,n2,...` for a non-empty list of numbers. */
  function NumberList(ns: seq<nat>): string
    requires |ns| > 0
  {
    if |ns| == 1 then DecimalString(ns[0]) else DecimalString(ns[0]) + "," + NumberList(ns[1..])
  }

  /** The numeral of an index in range selects that one quiz. */
  lemma SelectNumeral(n: nat, quizzes: seq<string>)
    requires 1 <= n <= |quizzes|
    ensures SelectFiles(DecimalString(n), quizzes) == [quizzes[n - 1]]
  {
    DecimalRoundTrip(n);
    DigitsHaveNoComma(DecimalString(n));
    SelectToken(DecimalString(n), quizzes);
  }

  /** The quizzes the numbers `ns` name, in order. */
  function Named(ns: seq<nat>, quizzes: seq<string>): (files: seq<string>)
    requires forall i :: 0 <= i < |ns| ==> 1 <= ns[i] <= |quizzes|
    ensures |files| == |ns|
    ensures forall i :: 0 <= i < |ns| ==> files[i] == quizzes[ns[i] - 1]
  {
    if ns == [] then [] else [quizzes[ns[0] - 1]] + Named(ns[1..], quizzes)
  }

  /** Typing the numbers `n1,n2,...`, each between 1 and the number of quizzes,
      selects `quizzes[n1 - 1], quizzes[n2 - 1], ...`: in the typed order,
      duplicates included. */
  lemma {:induction false} SelectNumbers(ns: seq<nat>, quizzes: seq<string>)
    requires |ns| > 0
    requires forall i :: 0 <= i < |ns| ==> 1 <= ns[i] <= |quizzes|
    ensures SelectFiles(NumberList(ns), quizzes) == Named(ns, quizzes)
  {
    SelectNumeral(ns[0], quizzes);
    if |ns| > 1 {
      var tail := ns[1..];
      SelectConcat(DecimalString(ns[0]), NumberList(tail), quizzes);
      SelectNumbers(tail, quizzes);
    }
  }
}
