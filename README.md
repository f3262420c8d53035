# QuizProject in Dafny

A model of the logic inside `QuizProject.py`, a console quiz program. The
program keeps a registry of themes in `quizPath.txt`. Each theme names a
folder of JSON quiz files. A quiz file is a list of records
`[question, [option, is_correct], ..., explanation]`. A session asks the
questions of the chosen quiz files and counts the correct replies. The
questions missed in a session are saved in the `Errors` folder as
`MyErrorNN.json`; once the bank holds at most ten, it never holds more. A review pass asks one error file
again and removes every question answered correctly.

Modules:

- `Wrappers`: `Option`.
- `Text`: the Python string operations the program relies on: `strip`,
  `in`, `split`, `startswith`/`endswith`, iterating a file line by line,
  `isdigit`/`int`, `{:02d}`, and string order.
- `ThemeRegistry`: the theme dictionary as an insertion-ordered sequence.
  It covers `themes[name] = path`, the errors-theme update, the
  `save_themes` line format, and `load_themes` as a loop over the file's
  lines.
- `Questions`: the record layout and the answer check.
- `Selection`: the quiz-file filter, the theme prompt and the parsing of
  the comma-separated quiz selection.
- `Session`: gathering the chosen files' questions and the scoring loop of
  `play_quiz`.
- `ErrorBank`: the rotation of the `Errors` folder, over the set of its
  file names.
- `Review`: the file prompt and the removal loop of `view_errors`.

The program's console replies are parameters. A reply to a numeric prompt
is an `Option<int>`: `None` stands for the text on which `int()` raises
`ValueError`. File contents are parameters as well. `Option<string>` is the
registry file, with `None` when it does not exist. A quiz file is an
`Option<seq<Record>>`, with `None` when `load_quiz` falls back to `[]`. A
folder listing is a sequence of names, or a set of names where the program
sorts it.

## Model

| member | source | states |
|---|---|---|
| ThemeRegistry.Lookup | QuizProject.py:63 | a name has an entry exactly when the registry holds a theme of that name, and the entry found is one of the registry's themes |
| ThemeRegistry.Put | QuizProject.py:162 | `themes[name] = path` keeps names unique, replaces an existing entry in place and keeps its position, or appends a new entry at the end |
| ThemeRegistry.PutLookup | QuizProject.py:162 | after `themes[name] = path` the name maps to the path and every other name maps to what it did before |
| ThemeRegistry.PutEntries | QuizProject.py:162 | registering brings in no entry other than the new one |
| ThemeRegistry.EnsureErrorsTheme | QuizProject.py:61-66 | `"Review my errors" -> "Errors"` is appended exactly when that name is absent; otherwise the registry is unchanged; afterwards the name is present and the registry is not empty |
| ThemeRegistry.FormatLine | QuizProject.py:32 | the line written for an entry is `[`, the name, `]-[`, the path and `]`: five characters more than name and path, bracketed |
| ThemeRegistry.SaveThemes | QuizProject.py:27-32 | the text written is empty exactly for the empty registry, and otherwise ends with a newline |
| ThemeRegistry.ParseLine | QuizProject.py:44-47 | a line is accepted only when it contains `]-[` and its stripped form starts with `[` and ends with `]` |
| ThemeRegistry.LoadLine | QuizProject.py:44-52 | one line of the loader keeps names unique |
| ThemeRegistry.LoadLines | QuizProject.py:43-52 | the loader's result over any lines has unique names |
| ThemeRegistry.LoadThemes | QuizProject.py:37-55 | the line loop returns the empty registry when the file is missing, and otherwise the fold of the per-line update over the file's lines |
| ThemeRegistry.ParseLineIff | QuizProject.py:44-47 | a line is accepted as `(name, path)` exactly when the stripped line is `[name]-[path]` and neither part contains `]-[` |
| ThemeRegistry.ParseInnerIff | QuizProject.py:45-47 | the text between the brackets gives `(name, path)` exactly when it is `name]-[path` and neither part contains `]-[` |
| ThemeRegistry.FormatLineParts | QuizProject.py:32 | the line written for an entry starts with `[`, ends with `]`, holds `]-[`, and between the brackets is `name]-[path` |
| ThemeRegistry.SplitFormatted | QuizProject.py:45 | `name]-[path` splits into exactly `[name, path]` when neither part contains `]-[` |
| ThemeRegistry.FormatLineNoBreak | QuizProject.py:32 | the line written for an entry without line breaks holds no line break |
| ThemeRegistry.LinesOfSave | QuizProject.py:31-32 | the file `save_themes` writes reads back, line by line, as one formatted line per entry, in order |
| ThemeRegistry.LoadFormatted | QuizProject.py:43-48 | loading the formatted lines of a storable registry with unique names rebuilds it |
| ThemeRegistry.SaveLoadRoundTrip | QuizProject.py:27-55 | saving then loading gives the same names, paths and order when no name or path holds `]-[` or a line break |
| ThemeRegistry.UniquePrefix | QuizProject.py:43-48 | dropping the last entry of a registry keeps the rest unique and separable, and the dropped name is then absent |
| ThemeRegistry.FormatLineParses | QuizProject.py:32-47 | the line written for a separable entry is accepted and gives that entry back |
| ThemeRegistry.RegisterThenReload | QuizProject.py:160-163 | after registering, saving and reloading, the new name maps to its path and every other name is as before, when neither the new name nor its path holds `]-[` or a line break (and every stored entry is likewise storable) |
| ThemeRegistry.SplitAfterChar | QuizProject.py:45 | in `c]-[b`, with `c` not `]`, the split cuts after `c` and goes on splitting `b` |
| ThemeRegistry.ThreePartsRejected | QuizProject.py:45-50 | the inner text `a]-[b]-[p` splits into three parts, so it is not an entry |
| ThemeRegistry.BracketedRejected | QuizProject.py:44-52 | a bracketed line whose inner text is not exactly two parts is skipped |
| ThemeRegistry.FormattedNoBreak | QuizProject.py:32 | the line written for an entry has no line break when its name and path have none |
| ThemeRegistry.SingleSavedLines | QuizProject.py:30-43 | a one-entry file is read back as that entry's line alone |
| ThemeRegistry.SeparatorInNameLost | QuizProject.py:27-50 | a theme registered under the name `a]-[b` is written as `[a]-[b]-[p]`, which the loader rejects, so it is gone after a reload |
| ThemeRegistry.FormattedHalvesNoBreak | QuizProject.py:32 | when the written line has no line break, neither does the name or the path |
| ThemeRegistry.ParsedStorable | QuizProject.py:43-48 | an entry read from a line without line breaks is storable: no `]-[` and no line break in either half |
| ThemeRegistry.LoadedStorable | QuizProject.py:37-55 | every entry the loader builds from a file's lines is storable |
| ThemeRegistry.ReloadIsStable | QuizProject.py:27-55 | saving and reloading a registry that was loaded from any file gives that registry back, so the round trip's provisos hold for every registry the program holds |
| ThemeRegistry.WellFormedLinesAppend | QuizProject.py:43-52 | keeping only the accepted lines distributes over concatenation |
| ThemeRegistry.LoadIgnoresMalformed | QuizProject.py:44-52 | loading a file gives the same registry as loading only its accepted lines |
| ThemeRegistry.MalformedLineSkipped | QuizProject.py:44-52 | a rejected line changes nothing, and the lines after it are still read |
| ThemeRegistry.LoadLookup | QuizProject.py:43-48 | the path loaded for a name is the path of the last accepted line with that name, so later lines override earlier ones |
| Questions.MakeRecord | QuizProject.py:184 | the record built has text first and last and one option cell per option between them |
| Questions.RecordLayout | QuizProject.py:131-133 | reading a built record back by position gives its question, its options in order and its explanation |
| Questions.RecordRebuild | QuizProject.py:184 | every well-formed record is the record built from its own prompt, options and explanation |
| Questions.OptionPairs | QuizProject.py:132 | a record has two cells more than it has options |
| Questions.IsCorrect | QuizProject.py:139-140 | a passing number is between 1 and the number of options |
| Questions.IsCorrectIff | QuizProject.py:139-140 | the typed number `n` passes exactly when `1 <= n <= len(options)` and option `n` is marked correct |
| Questions.NonPositiveIsWrong | QuizProject.py:139-140 | zero and negative numbers never pass |
| Questions.AnswerableIff | QuizProject.py:140 | some number passes exactly when some option is marked correct |
| Questions.Judge | QuizProject.py:138-148 | a reply is invalid exactly when it is not a number, and right exactly when it is a passing number |
| Session.LoadQuiz | QuizProject.py:9-15 | the questions of a readable quiz file, and none for a missing or undecodable one |
| Session.GatheredMembers | QuizProject.py:112-114 | a question is gathered exactly when one of the readable chosen files holds it |
| Session.CollectQuestions | QuizProject.py:112-114 | the `extend` loop returns the questions of the chosen files, file after file, with unreadable files contributing nothing |
| Session.EvaluateSession | QuizProject.py:119-149 | the question loop returns the number of passing replies and the questions given a wrong number; together with the non-numeric replies they account for every question |
| Session.Score | QuizProject.py:140-142 | the score counts passing replies, so it is at most the number of questions |
| Session.Missed | QuizProject.py:143-145 | the errors kept are at most as many as the questions |
| Session.SessionAccounting | QuizProject.py:138-148 | every reply is counted exactly once: passing, missed or not a number |
| Session.FullScoreIff | QuizProject.py:140-142 | the score equals the number of questions exactly when every reply passes |
| Session.MissedHolds | QuizProject.py:143-145 | a question given a number that does not pass is saved as an error |
| Session.MissedWitness | QuizProject.py:143-145 | every saved error is a question that was given, at some position, a number that does not pass |
| Session.MissedMembers | QuizProject.py:143-145 | a question is saved as an error exactly when it was given a number that does not pass |
| Session.MissedInQuizOrder | QuizProject.py:130-145 | the saved errors are a subsequence of the questions, in the order asked |
| Selection.QuizFiles | QuizProject.py:87 | the quiz files are exactly the listed names ending in `.json` |
| Selection.QuizFilesAppend | QuizProject.py:87 | the filter keeps listing order: the quiz files of two listings in turn are those of the first followed by those of the second |
| Selection.QuizFilesSingle | QuizProject.py:87 | a single name is kept exactly when it ends in `.json` |
| Selection.SelectTheme | QuizProject.py:77-84 | `0` cancels; a number selects a theme exactly when it is non-zero and `n - 1` is a valid Python index, negative ones counting from the end; `1..len` selects entry `n`, and `1 - len..-1` selects entry `len + n`, counting from 1; anything else is rejected |
| Selection.MinusOneSelectsSecondToLast | QuizProject.py:81 | typing `-1` selects the second-to-last theme instead of failing |
| Selection.PickOne | QuizProject.py:105 | one token picks at most one file, and only one of the quizzes |
| Selection.PickQuizzes | QuizProject.py:105 | at most one file is picked per token, and every file picked is one of the quizzes |
| Selection.SelectFiles | QuizProject.py:105 | at most one file per comma-separated token, each one of the quizzes |
| Selection.SelectQuizzes | QuizProject.py:100-105 | the prompt cancels exactly when the stripped input is `0`; otherwise it yields only quizzes from the list |
| Selection.PickQuizzesAppend | QuizProject.py:105 | the comprehension over concatenated token lists is the concatenation of the two results |
| Selection.SelectConcat | QuizProject.py:105 | selecting `a,b` is selecting `a` followed by selecting `b`, so order and repetitions are kept |
| Selection.SelectToken | QuizProject.py:105 | a token picks `quizzes[n - 1]` when it is all digits with `1 <= n <= len(quizzes)`, and nothing, without an error, otherwise (for ASCII digit tokens of at most 4300 digits) |
| Selection.SelectNumeral | QuizProject.py:105 | the numeral of an index in range picks that one quiz |
| Selection.Named | QuizProject.py:105 | the files the numbers name: as many as there are numbers, the `k`-th being `quizzes[n_k - 1]` |
| Selection.SelectNumbers | QuizProject.py:105 | typing `n1,n2,...` with every number in range picks `quizzes[n1 - 1], quizzes[n2 - 1], ...` in the typed order, duplicates included |
| ErrorBank.ErrorFiles | QuizProject.py:123 | the error files are exactly the folder's names starting with `MyError` and ending in `.json` |
| ErrorBank.HasSmallest | QuizProject.py:123-125 | a non-empty set of names has a name that sorts first |
| ErrorBank.Oldest | QuizProject.py:123-125 | `sorted(files)[0]` is one of the files and sorts before every other |
| ErrorBank.OldestIsUnique | QuizProject.py:123-125 | only one name sorts first, so the name deleted is determined |
| ErrorBank.HasLargest | QuizProject.py:200 | a non-empty set of names has a name that sorts last |
| ErrorBank.NewestFirst | QuizProject.py:200 | `sorted(files, reverse=True)` lists exactly the files, as many entries as there are files |
| ErrorBank.NewestFirstDescending | QuizProject.py:200 | each entry of that listing sorts after every later entry, and no name is listed twice |
| ErrorBank.NewErrorName | QuizProject.py:127 | the new name is itself an error-file name |
| ErrorBank.NewErrorNameInjective | QuizProject.py:127 | different counts give different names |
| ErrorBank.Rotate | QuizProject.py:123-127 | a file is deleted exactly when there are ten or more error files, and the file deleted is the one that sorts first; the new name is built from the count taken before the deletion |
| ErrorBank.Store | QuizProject.py:150 | writing a file leaves the name in the folder, keeps every other name, and adds one name unless the name was already there |
| ErrorBank.SessionFileCount | QuizProject.py:123-150 | a session adds one error file, unless the new name is already taken, in which case that file is overwritten and the count stays the same |
| ErrorBank.BankStaysBounded | QuizProject.py:123-150 | a bank of at most ten error files still has at most ten after a session |
| ErrorBank.NameCanCollide | QuizProject.py:123-150 | a folder holding only `MyError02.json` counts one file, so the session writes `MyError02.json` again and overwrites what it held |
| Review.ChooseErrorFile | QuizProject.py:211-223 | `0` goes back; `1..len` opens that entry of the listing; every other number, negative ones included, is refused |
| Review.FirstEntryIsNewest | QuizProject.py:200-216 | typing `1` opens the error file whose name sorts last |
| Review.RemoveFirst | QuizProject.py:238 | `list.remove(x)` takes one copy of `x` out of a list that holds it and, where Python raises `ValueError` (the element is absent), returns the list unchanged |
| Review.FirstIndex | QuizProject.py:238 | a list holding `x` has a first position holding `x` |
| Review.RemoveFirstIndex | QuizProject.py:238 | `remove` cuts the list at the first position holding `x`, keeping the elements before and after in order |
| Review.RemoveFirstAt | QuizProject.py:238 | the copy removed is the first element equal to `x`, and the elements before and after it keep their order |
| Review.RemoveEachCount | QuizProject.py:226-238 | removing, one at a time, elements the list holds as often as they are removed takes away exactly those elements |
| Review.RemovalFinds | QuizProject.py:238 | the next removal finds its element while every element removed so far, and it, are in the list |
| Review.Passed | QuizProject.py:236-238 | the passed questions are at most as many as the questions asked |
| Review.PassedAmongAsked | QuizProject.py:226-238 | the questions passed are among those asked, as often as they were asked |
| Review.PassedStep | QuizProject.py:236-238 | one more reply adds its question to the passed list when it passes, and nothing otherwise |
| Review.PrefixIncluded | QuizProject.py:226-238 | the questions asked so far are among all the questions, as often as they occur |
| Review.ReviewFinds | QuizProject.py:238 | the `remove` for a passing reply always finds its question, so it never raises `ValueError` |
| Review.ReviewStep | QuizProject.py:236-238 | one pass of the loop removes the question of a passing reply and nothing otherwise, keeping the list equal to the questions less those passed so far |
| Review.ReviewErrors | QuizProject.py:226-245 | the loop over the copy returns the list with one copy removed per passing reply; as multisets, what is left plus what passed is what was asked |
| Review.PassedCountsScore | QuizProject.py:236-238 | a review passes as many questions as a session scores with the same replies |
| Review.AllPassedEmpties | QuizProject.py:226-245 | a review in which every reply passes leaves the error file empty |
| Text.Strip | QuizProject.py:44 | the result of `strip()` has no whitespace at either end, and is empty exactly when the text is all whitespace |
| Text.StripIsSlice | QuizProject.py:44 | `strip()` returns the text with only a leading and a trailing run of whitespace taken off |
| Text.Split | QuizProject.py:105 | `split(sep)` yields at least one part |
| Text.SplitParts | QuizProject.py:105 | the parts of `split(sep)` joined with the separator give the text back, and no part contains the separator |
| Text.SplitTwo | QuizProject.py:45-46 | a text that splits into two parts is the first part, the separator and the second part, and neither part contains the separator |
| Text.SplitConcat | QuizProject.py:105 | splitting `a + c + b` on the one-character separator `c` gives the parts of `a` followed by the parts of `b` |
| Text.Lines | QuizProject.py:43 | iterating a file yields lines without line breaks, and the empty file yields none |
| Text.LinesCrLf | QuizProject.py:43 | a line ended by `\r\n` reads back as that line, followed by the lines of the rest |
| Text.LinesCr | QuizProject.py:43 | a line ended by a lone `\r` (the next character not `\n`) reads back as that line, followed by the lines of the rest |
| Text.LinesUnterminated | QuizProject.py:43 | a last line without a terminator is still read as one line |
| Text.StripNoLineBreak | QuizProject.py:44 | stripping a text without line breaks leaves none |
| Text.LinesCons | QuizProject.py:32-43 | a line written with its newline is read back as that line, followed by the lines of the rest |
| Text.DecimalRoundTrip | QuizProject.py:105 | the decimal numeral of `n` is all digits, and `int()` of it gives `n` back |
| Text.LeadingDigit | QuizProject.py:127 | the decimal numeral of a positive number does not start with `0` |
| Text.Pad2 | QuizProject.py:127 | `{:02d}` gives at least two digits whose value is the number, with no leading zero beyond the padding, so exactly two digits below 100 |
| Text.Pad2Injective | QuizProject.py:127 | different numbers give different padded numerals |
| Text.LexLeReflexive | QuizProject.py:123 | every name sorts no later than itself |
| Text.LexLeTotal | QuizProject.py:123 | any two names are ordered one way or the other |
| Text.LexLeTransitive | QuizProject.py:123 | string order is transitive |
| Text.LexLeAntisymmetric | QuizProject.py:123 | names ordered both ways are equal |

## Left out

- Console I/O is not modelled. Every `input` is a parameter, every `print` is dropped, and so is the main menu loop (`main`, lines 248-271).
- File-system and JSON calls are not modelled: `open`, `json.load`, `json.dump`, `os.listdir`, `os.makedirs`, `os.remove` and `os.path`. `load_quiz` is its result. `None` stands for the two failures `load_quiz` catches, `FileNotFoundError` and `json.JSONDecodeError` (line 13), and is read as the empty list. Any other read error is not modelled. `PermissionError` is caught nowhere, so it ends the program. `UnicodeDecodeError` also ends the program when it comes from the loads in `play_quiz` (lines 96 and 114). It is a `ValueError`, though, so when it comes from the load in `view_errors` (line 217), the `except ValueError` at line 221 catches it: the program prints `Entrée invalide.` and returns to the menu without a review. `save_quiz` writing a file is `ErrorBank.Store`, which adds the name to the folder. The two writes in `view_errors` and `create_quiz` are their contents, `Review.ReviewErrors`'s result and `Questions.MakeRecord`'s records. Write errors caught by `save_quiz` and `save_themes` are not modelled.
- ThemeRegistry.LoadThemes: the `except Exception` of `load_themes` (lines 53-54) is not modelled. When reading fails partway through the file, the program keeps the entries built from the lines read so far; the model reads the whole text it is given.
- The `os.path.isdir` check before registering a theme (line 156) is not modelled, because it is a file-system query. `ThemeRegistry.RegisterThenReload` starts from the registration itself.
- ThemeRegistry.RegisterThenReload: the round trip holds only for a name and path without `]-[` or a line break. A name typed at line 160 or a path typed at line 155 may hold `]-[`; its line is then split into three or more parts (line 45) and skipped (line 50), so the registration is lost on the next load. `ThemeRegistry.SeparatorInNameLost` proves this for the name `a]-[b`.
- `random.shuffle` (line 117) is not modelled, because it is randomness. A session takes the question order it is given.
- The prompting loops of `create_quiz` (lines 174-191) are not modelled, because they are console input. Only the record they build is kept (`Questions.MakeRecord`), since `str.lower` on arbitrary Unicode is outside the model.
- Records in a quiz file are taken to be well-formed (`Questions.WellFormed`): text first and last, `[text, is_correct]` pairs between. Other JSON shapes are not modelled. The program accepts some of them without an error: the record `["q"]` has no options and the explanation `"q"`, so every number is wrong and the record is saved; a string such as `"ab"` in an option's place passes when chosen, because its second character is truthy. Others make it raise `IndexError`, `KeyError` or `TypeError`.
- `isdigit` and `int` are taken over ASCII digits only. Python also accepts other Unicode digits, and `int` also accepts surrounding whitespace and a sign. A reply is therefore modelled as the number `int()` returns, or as no number.
- Selection.SelectToken: a token on which `isdigit()` holds but `int()` fails is not modelled. Such tokens are non-ASCII digits like `²` or `①`, and, from Python 3.11, ASCII numerals of more than 4300 digits. For them line 105 raises `ValueError`. Only `IndexError` is caught (line 106), and neither `play_quiz` nor `main` catches `ValueError`, so the program ends. The model covers ASCII digits only, where this cannot happen below that length.
- Review.RemoveFirst: the function is made total. On a list without `x` it returns the list unchanged, where Python's `list.remove` raises `ValueError`. The review loop never reaches that case, by `Review.ReviewFinds`; and were it reached, the `except ValueError` at line 242 would leave `questions` unchanged, which is what the model returns.
- Writing `\n` is not translated to the platform's line separator. The reader uses universal newlines (`\n`, `\r`, `\r\n`), as Python's text mode does.
- `Text.Strip` strips the whitespace characters that Python's `str.isspace` accepts, written out as a fixed set.
- The error folder is the set of its file names, because `os.listdir` names are distinct and the program only uses the listing sorted. Python's `sorted` on strings is code-point order (`Text.LexLe`). `ErrorBank.Oldest`, `ErrorBank.Newest` and `ErrorBank.NewestFirst` are ghost: they pick the first or last name by specification, not by a sorting algorithm.
- The error-file prompt does not model reaching `view_errors` with no `Errors` folder or no error files (lines 196-204), because those are a printed message and a return.
- The code has only single-answer multiple choice. It has no matching questions and no set-valued answers, and it does not ask again after an invalid reply. The model follows the code.
- The unused global `incorrect_questions` (line 6) is not modelled.
