/** Quiz questions as the program stores them: a flat JSON list
    `[question, [option, is_correct], ..., explanation]`, read back by
    position, and the test that judges one numeric answer. */
module Questions {
  import opened Wrappers

  /** One element of a stored record: the question or explanation text, or
      one option as the pair `[text, is_correct]`. */
  datatype Cell = Words(text: string) | Choice(option: string, correct: bool)

  /** A question record, as a list of cells. */
  type Record = seq<Cell>

  /** The shape `create_quiz` writes: text first and last, options between. */
  predicate WellFormed(rec: Record) {
    |rec| >= 2 && rec[0].Words? && rec[|rec| - 1].Words?
    && forall i :: 0 < i < |rec| - 1 ==> rec[i].Choice?
  }

  /** `[question, *options, explanation]` with each option `[text, is_correct]`. */
  function MakeRecord(question: string, options: seq<(string, bool)>, explanation: string): (rec: Record)
    ensures WellFormed(rec)
    ensures |rec| == |options| + 2
  {
    [Words(question)] + seq(|options|, i requires 0 <= i < |options| => Choice(options[i].0, options[i].1))
    + [Words(explanation)]
  }

  /** `question_data[0]`. */
  function Prompt(rec: Record): string
    requires WellFormed(rec)
  {
    rec[0].text
  }

  /** `question_data[1:-1]`. */
  function Options(rec: Record): seq<Cell>
    requires WellFormed(rec)
  {
    rec[1..|rec| - 1]
  }

  /** `question_data[-1]`. */
  function Explanation(rec: Record): string
    requires WellFormed(rec)
  {
    rec[|rec| - 1].text
  }

  /** The options of a well-formed record as `(text, is_correct)` pairs. */
  function OptionPairs(rec: Record): (opts: seq<(string, bool)>)
    requires WellFormed(rec)
    ensures |opts| == |rec| - 2
  {
    seq(|rec| - 2, i requires 0 <= i < |rec| - 2 => (rec[i + 1].option, rec[i + 1].correct))
  }

  /** Reading a record back by position gives what it was built from. */
  lemma RecordLayout(question: string, options: seq<(string, bool)>, explanation: string)
    ensures var rec := MakeRecord(question, options, explanation);
      Prompt(rec) == question && Explanation(rec) == explanation
      && OptionPairs(rec) == options
      && |Options(rec)| == |options|
      && forall i :: 0 <= i < |options| ==> Options(rec)[i] == Choice(options[i].0, options[i].1)
  {
  }

  /** Every well-formed record is one `create_quiz` could have built, from its
      own prompt, options and explanation. */
  lemma RecordRebuild(rec: Record)
    requires WellFormed(rec)
    ensures rec == MakeRecord(Prompt(rec), OptionPairs(rec), Explanation(rec))
  {
    var r := MakeRecord(Prompt(rec), OptionPairs(rec), Explanation(rec));
    assert |r| == |rec|;
    forall i | 0 <= i < |rec| ensures r[i] == rec[i] {
      if 0 < i < |rec| - 1 {
        assert r[i] == Choice(rec[i].option, rec[i].correct);
      }
    }
  }

  /** The check in `play_quiz` and `view_errors` for the typed number `n`
      (`answer = n - 1`): `0 <= answer < len(options) and options[answer][1]`. */
  predicate IsCorrect(rec: Record, n: int)
    requires WellFormed(rec)
    ensures IsCorrect(rec, n) ==> 1 <= n <= |rec| - 2
  {
    var opts := Options(rec);
    0 <= n - 1 < |opts| && opts[n - 1].correct
  }

  /** The answer check in terms of the options a record was built from:
      option `n`, counting from 1, must exist and be marked correct. */
  lemma IsCorrectIff(question: string, options: seq<(string, bool)>, explanation: string, n: int)
    ensures IsCorrect(MakeRecord(question, options, explanation), n)
      <==> 1 <= n <= |options| && options[n - 1].1
  {
    RecordLayout(question, options, explanation);
  }

  /** Zero and negative numbers never pass, whatever the options. */
  lemma NonPositiveIsWrong(rec: Record, n: int)
    requires WellFormed(rec) && n <= 0
    ensures !IsCorrect(rec, n)
  {
  }

  /** Some answer passes exactly when some option is marked correct. */
  lemma AnswerableIff(rec: Record)
    requires WellFormed(rec)
    ensures (exists n :: IsCorrect(rec, n)) <==> (exists i :: 0 <= i < |Options(rec)| && Options(rec)[i].correct)
  {
    if exists i :: 0 <= i < |Options(rec)| && Options(rec)[i].correct {
      var i :| 0 <= i < |Options(rec)| && Options(rec)[i].correct;
      assert IsCorrect(rec, i + 1);
    }
  }

  /** How one question of a session ends. */
  datatype Verdict = Right | Wrong | Invalid

  /** The outcome of one reply: no number (`int()` raised `ValueError`),
      a passing number, or any other number. */
  function Judge(rec: Record, answer: Option<int>): (v: Verdict)
    requires WellFormed(rec)
    ensures v == Invalid <==> answer.None?
    ensures v == Right <==> answer.Some? && IsCorrect(rec, answer.value)
  {
    match answer
    case None => Invalid
    case Some(n) => if IsCorrect(rec, n) then Right else Wrong
  }
}
