/** One run of `play_quiz` after the quizzes are chosen: the questions of
    the chosen files are gathered, every question gets one reply, the score
    counts the passing replies and every question answered with a wrong
    number is kept for the error bank. */
module Session {
  import opened Wrappers
  import opened Questions

  predicate AllWellFormed(qs: seq<Record>) {
    forall i :: 0 <= i < |qs| ==> WellFormed(qs[i])
  }

  /** `load_quiz`: the decoded list of a quiz file, or the empty list when the
      file is missing or is not valid JSON (`None`). */
  function LoadQuiz(file: Option<seq<Record>>): (qs: seq<Record>)
    ensures file.None? ==> qs == []
    ensures file.Some? ==> qs == file.value
  {
    match file
    case None => []
    case Some(qs) => qs
  }

  /** The questions of the chosen files, file after file. */
  function Gathered(files: seq<Option<seq<Record>>>): seq<Record> {
    if files == [] then [] else Gathered(files[..|files| - 1]) + LoadQuiz(files[|files| - 1])
  }

  /** A question is gathered exactly when one of the readable files holds it. */
  lemma {:induction false} GatheredMembers(files: seq<Option<seq<Record>>>, rec: Record)
    ensures rec in Gathered(files) <==> exists i :: 0 <= i < |files| && files[i].Some? && rec in files[i].value
  {
    if files != [] {
      var n := |files| - 1;
      GatheredMembers(files[..n], rec);
      if exists i :: 0 <= i < n && files[..n][i].Some? && rec in files[..n][i].value {
        var i :| 0 <= i < n && files[..n][i].Some? && rec in files[..n][i].value;
        assert files[i] == files[..n][i];
      }
      if exists i :: 0 <= i < |files| && files[i].Some? && rec in files[i].value {
        var i :| 0 <= i < |files| && files[i].Some? && rec in files[i].value;
        if i < n {
          assert files[..n][i] == files[i];
        }
      }
    }
  }

  /** The loop `questions.extend(load_quiz(...))` over the chosen files. */
  method CollectQuestions(files: seq<Option<seq<Record>>>) returns (questions: seq<Record>)
    ensures questions == Gathered(files)
  {
    questions := [];
    var i := 0;
    while i < |files|
      invariant 0 <= i <= |files|
      invariant questions == Gathered(files[..i])
    {
      assert files[..i + 1][..i] == files[..i];
      questions := questions + LoadQuiz(files[i]);
      i := i + 1;
    }
    assert files[..i] == files;
  }

  /** Number of replies that pass the check. */
  function Score(qs: seq<Record>, answers: seq<Option<int>>): (score: nat)
    requires |answers| == |qs| && AllWellFormed(qs)
    ensures score <= |qs|
  {
    if qs == [] then 0
    else
      var n := |qs| - 1;
      Score(qs[..n], answers[..n]) + if Judge(qs[n], answers[n]) == Right then 1 else 0
  }

  /** The questions answered with a number that does not pass, in quiz order. */
  function Missed(qs: seq<Record>, answers: seq<Option<int>>): (missed: seq<Record>)
    requires |answers| == |qs| && AllWellFormed(qs)
    ensures |missed| <= |qs|
  {
    if qs == [] then []
    else
      var n := |qs| - 1;
      Missed(qs[..n], answers[..n]) + if Judge(qs[n], answers[n]) == Wrong then [qs[n]] else []
  }

  /** Number of replies that were not a number. */
  function NonNumeric(answers: seq<Option<int>>): nat {
    if answers == [] then 0
    else NonNumeric(answers[..|answers| - 1]) + if answers[|answers| - 1].None? then 1 else 0
  }

  /** The question loop of `play_quiz`: one reply per question; a passing
      reply adds one to `score`, any other number appends the question to
      `errors_to_save`, and a reply that is not a number does neither. */
  method EvaluateSession(questions: seq<Record>, answers: seq<Option<int>>)
    returns (score: nat, errors: seq<Record>)
    requires |answers| == |questions| && AllWellFormed(questions)
    ensures score == Score(questions, answers)
    ensures errors == Missed(questions, answers)
    ensures score + |errors| + NonNumeric(answers) == |questions|
  {
    score, errors := 0, [];
    var i := 0;
    while i < |questions|
      invariant 0 <= i <= |questions|
      invariant score == Score(questions[..i], answers[..i])
      invariant errors == Missed(questions[..i], answers[..i])
    {
      assert questions[..i + 1][..i] == questions[..i];
      assert answers[..i + 1][..i] == answers[..i];
      var question := questions[i];
      match answers[i] {
        case None =>
        case Some(n) =>
          if IsCorrect(question, n) {
            score := score + 1;
          } else {
            errors := errors + [question];
          }
      }
      i := i + 1;
    }
    assert questions[..i] == questions;
    assert answers[..i] == answers;
    SessionAccounting(questions, answers);
  }

  /** Every reply is counted exactly once: passing, missed, or not a number. */
  lemma {:induction false} SessionAccounting(qs: seq<Record>, answers: seq<Option<int>>)
    requires |answers| == |qs| && AllWellFormed(qs)
    ensures Score(qs, answers) + |Missed(qs, answers)| + NonNumeric(answers) == |qs|
  {
    if qs != [] {
      var n := |qs| - 1;
      SessionAccounting(qs[..n], answers[..n]);
    }
  }

  /** The full score is reached exactly when every reply passes. */
  lemma {:induction false} FullScoreIff(qs: seq<Record>, answers: seq<Option<int>>)
    requires |answers| == |qs| && AllWellFormed(qs)
    ensures Score(qs, answers) == |qs| <==> forall i :: 0 <= i < |qs| ==> Judge(qs[i], answers[i]) == Right
  {
    if qs != [] {
      var n := |qs| - 1;
      FullScoreIff(qs[..n], answers[..n]);
      SessionAccounting(qs[..n], answers[..n]);
      if Score(qs, answers) == |qs| {
        forall i | 0 <= i < |qs| ensures Judge(qs[i], answers[i]) == Right {
          if i < n {
            assert qs[..n][i] == qs[i] && answers[..n][i] == answers[i];
          }
        }
      }
      if forall i :: 0 <= i < |qs| ==> Judge(qs[i], answers[i]) == Right {
        forall i | 0 <= i < n ensures Judge(qs[..n][i], answers[..n][i]) == Right {
          assert qs[..n][i] == qs[i] && answers[..n][i] == answers[i];
        }
      }
    }
  }

  /** A question given a number that does not pass is kept. */
  lemma {:induction false} MissedHolds(qs: seq<Record>, answers: seq<Option<int>>, i: nat)
    requires |answers| == |qs| && AllWellFormed(qs)
    requires i < |qs| && Judge(qs[i], answers[i]) == Wrong
    ensures qs[i] in Missed(qs, answers)
  {
    var n := |qs| - 1;
    if i < n {
      assert qs[..n][i] == qs[i] && answers[..n][i] == answers[i];
      MissedHolds(qs[..n], answers[..n], i);
    }
  }

  /** Every question kept was given, at some position, a number that does
      not pass. */
  lemma {:induction false} MissedWitness(qs: seq<Record>, answers: seq<Option<int>>, rec: Record)
    returns (i: nat)
    requires |answers| == |qs| && AllWellFormed(qs)
    requires rec in Missed(qs, answers)
    ensures i < |qs| && qs[i] == rec && Judge(qs[i], answers[i]) == Wrong
  {
    var n := |qs| - 1;
    if rec in Missed(qs[..n], answers[..n]) {
      i := MissedWitness(qs[..n], answers[..n], rec);
      assert qs[..n][i] == qs[i] && answers[..n][i] == answers[i];
    } else {
      i := n;
    }
  }

  /** A question is kept for the error bank exactly when it was given a
      number that does not pass. */
  lemma MissedMembers(qs: seq<Record>, answers: seq<Option<int>>, rec: Record)
    requires |answers| == |qs| && AllWellFormed(qs)
    ensures rec in Missed(qs, answers) <==>
      exists i :: 0 <= i < |qs| && qs[i] == rec && Judge(qs[i], answers[i]) == Wrong
  {
    if rec in Missed(qs, answers) {
      var i := MissedWitness(qs, answers, rec);
    }
    if exists i :: 0 <= i < |qs| && qs[i] == rec && Judge(qs[i], answers[i]) == Wrong {
      var i :| 0 <= i < |qs| && qs[i] == rec && Judge(qs[i], answers[i]) == Wrong;
      MissedHolds(qs, answers, i);
    }
  }

  /** `a` is `b` with some elements left out, the rest in their order. */
  predicate Subsequence(a: seq<Record>, b: seq<Record>)
    decreases |b|
  {
    if a == [] then true
    else if b == [] then false
    else if a[|a| - 1] == b[|b| - 1] then Subsequence(a[..|a| - 1], b[..|b| - 1])
    else Subsequence(a, b[..|b| - 1])
  }

  lemma {:induction false} SubsequenceDropLast(a: seq<Record>, b: seq<Record>)
    requires a != [] && Subsequence(a, b)
    ensures Subsequence(a[..|a| - 1], b)
    decreases |b|, 0
  {
    var a' := a[..|a| - 1];
    if a' != [] {
      var b' := b[..|b| - 1];
      if a[|a| - 1] == b[|b| - 1] {
        SubsequenceDropLast(a', b');
        SubsequenceExtend(a'[..|a'| - 1], b', b[|b| - 1]);
        assert b' + [b[|b| - 1]] == b;
        assert (a' + [a[|a| - 1]])[..|a'|] == a';
      } else {
        SubsequenceDropLast(a, b');
        SubsequenceExtend(a', b', b[|b| - 1]);
        assert b' + [b[|b| - 1]] == b;
      }
    }
  }

  /** Appending to the longer sequence keeps a subsequence one. */
  lemma {:induction false} SubsequenceExtend(a: seq<Record>, b: seq<Record>, x: Record)
    requires Subsequence(a, b)
    ensures Subsequence(a, b + [x])
    decreases |b|, 1
  {
    assert (b + [x])[..|b|] == b;
    if a != [] && a[|a| - 1] == x {
      SubsequenceDropLast(a, b);
    }
  }

  /** The missed questions keep the order the quiz asked them in. */
  lemma {:induction false} MissedInQuizOrder(qs: seq<Record>, answers: seq<Option<int>>)
    requires |answers| == |qs| && AllWellFormed(qs)
    ensures Subsequence(Missed(qs, answers), qs)
  {
    if qs != [] {
      var n := |qs| - 1;
      MissedInQuizOrder(qs[..n], answers[..n]);
      var m := Missed(qs[..n], answers[..n]);
      assert qs[..n] + [qs[n]] == qs;
      if Judge(qs[n], answers[n]) == Wrong {
        assert Missed(qs, answers) == m + [qs[n]];
        assert (m + [qs[n]])[..|m|] == m;
      } else {
        assert Missed(qs, answers) == m;
        SubsequenceExtend(m, qs[..n], qs[n]);
      }
    }
  }
}
