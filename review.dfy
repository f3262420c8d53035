/** `view_errors`: the error files are listed newest name first, one is
    chosen by number, and its questions are asked again; every question
    answered correctly is taken out of the list, which is then written back
    to the same file. */
module Review {
  import opened Wrappers
  import opened Questions
  import opened Session
  import opened ErrorBank

  /** What the file prompt leads to. */
  datatype FileChoice = Back | Refused | Opened(file: string)

  /** The file prompt over the listing shown: `n` is the number typed
      (`None` when `int()` fails). `0` goes back, `1 ..= len` opens that
      entry, and anything else is refused: unlike the theme prompt there is
      an explicit lower bound, so negative numbers do not index from the end. */
  function ChooseErrorFile(listing: seq<string>, answer: Option<int>): (c: FileChoice)
    ensures c == Back <==> answer == Some(0)
    ensures c.Opened? <==> answer.Some? && 1 <= answer.value <= |listing|
    ensures c.Opened? ==> c.file == listing[answer.value - 1]
  {
    match answer
    case None => Refused
    case Some(n) =>
      var index := n - 1;
      if index == -1 then Back
      else if 0 <= index < |listing| then Opened(listing[index])
      else Refused
  }

  /** Typing `1` opens the error file whose name sorts last. */
  lemma FirstEntryIsNewest(folder: set<string>)
    requires ErrorFiles(folder) != {}
    ensures ChooseErrorFile(NewestFirst(ErrorFiles(folder)), Some(1)) == Opened(Newest(ErrorFiles(folder)))
  {
  }

  /** `list.remove(x)`: the list without the first element equal to `x`. */
  function RemoveFirst(s: seq<Record>, x: Record): (r: seq<Record>)
    ensures x in s ==> multiset(r) + multiset{x} == multiset(s) && |r| + 1 == |s|
    ensures x !in s ==> r == s
  {
    if s == [] then []
    else
      assert s == [s[0]] + s[1..];
      if s[0] == x then s[1..]
      else [s[0]] + RemoveFirst(s[1..], x)
  }

  /** The position of the first element equal to `x`. */
  lemma {:induction false} FirstIndex(s: seq<Record>, x: Record) returns (k: nat)
    requires x in s
    ensures k < |s| && s[k] == x
    ensures forall j :: 0 <= j < k ==> s[j] != x
  {
    k := 0;
    if s[0] != x {
      assert x in s[1..] by {
        assert s == [s[0]] + s[1..];
      }
      var k' := FirstIndex(s[1..], x);
      k := k' + 1;
      forall j | 0 < j < k ensures s[j] != x {
        assert s[j] == s[1..][j - 1];
      }
    }
  }

  /** Removing `x` cuts the list at its first `x`. */
  lemma {:induction false} RemoveFirstIndex(s: seq<Record>, x: Record, k: nat)
    requires k < |s| && s[k] == x
    requires forall j :: 0 <= j < k ==> s[j] != x
    ensures RemoveFirst(s, x) == s[..k] + s[k + 1..]
  {
    if k == 0 {
      assert s[..0] + s[1..] == s[1..];
    } else {
      var t := s[1..];
      assert forall j :: 0 <= j < k - 1 ==> t[j] == s[j + 1];
      RemoveFirstIndex(t, x, k - 1);
      var head, before, after := [s[0]], t[..k - 1], t[k..];
      assert RemoveFirst(s, x) == head + (before + after);
      assert head + (before + after) == (head + before) + after;
      assert head + before == s[..k];
      assert after == s[k + 1..];
    }
  }

  /** `remove` takes out the first element equal to `x` and keeps the others
      in their order. */
  lemma RemoveFirstAt(s: seq<Record>, x: Record) returns (k: nat)
    requires x in s
    ensures k < |s| && s[k] == x && x !in s[..k]
    ensures RemoveFirst(s, x) == s[..k] + s[k + 1..]
  {
    k := FirstIndex(s, x);
    RemoveFirstIndex(s, x, k);
    assert forall j :: 0 <= j < k ==> s[..k][j] == s[j];
  }

  /** The list after `remove` was applied for each of `xs` in turn. */
  function RemoveEach(s: seq<Record>, xs: seq<Record>): seq<Record> {
    if xs == [] then s else RemoveFirst(RemoveEach(s, xs[..|xs| - 1]), xs[|xs| - 1])
  }

  lemma RemoveEachSnoc(s: seq<Record>, xs: seq<Record>, x: Record)
    ensures RemoveEach(s, xs + [x]) == RemoveFirst(RemoveEach(s, xs), x)
  {
    assert (xs + [x])[..|xs|] == xs;
  }

  /** Removing, one by one, elements that the list holds (as often as they
      are removed) takes away exactly those elements. */
  lemma {:induction false} RemoveEachCount(s: seq<Record>, xs: seq<Record>)
    requires multiset(xs) <= multiset(s)
    ensures multiset(RemoveEach(s, xs)) + multiset(xs) == multiset(s)
    ensures |RemoveEach(s, xs)| + |xs| == |s|
  {
    if xs != [] {
      var n := |xs| - 1;
      var x, before := xs[n], xs[..n];
      assert xs == before + [x];
      assert multiset(xs) == multiset(before) + multiset{x};
      RemoveEachCount(s, before);
      assert multiset(RemoveEach(s, before))[x] + multiset(before)[x] == multiset(s)[x];
      assert x in RemoveEach(s, before);
    }
  }

  /** The next removal finds its element as long as the elements removed so
      far, and it, are all in the list. */
  lemma RemovalFinds(s: seq<Record>, xs: seq<Record>, x: Record)
    requires multiset(xs + [x]) <= multiset(s)
    ensures x in RemoveEach(s, xs)
  {
    assert multiset(xs + [x]) == multiset(xs) + multiset{x};
    RemoveEachCount(s, xs);
    assert multiset(RemoveEach(s, xs))[x] + multiset(xs)[x] == multiset(s)[x];
  }

  /** The questions of a review answered correctly, in the order asked. */
  function Passed(qs: seq<Record>, answers: seq<Option<int>>): (passed: seq<Record>)
    requires |answers| == |qs| && AllWellFormed(qs)
    ensures |passed| <= |qs|
  {
    if qs == [] then []
    else
      var n := |qs| - 1;
      Passed(qs[..n], answers[..n]) + if Judge(qs[n], answers[n]) == Right then [qs[n]] else []
  }

  /** The passed questions are among the questions asked, as often as they
      were asked. */
  lemma {:induction false} PassedAmongAsked(qs: seq<Record>, answers: seq<Option<int>>)
    requires |answers| == |qs| && AllWellFormed(qs)
    ensures multiset(Passed(qs, answers)) <= multiset(qs)
  {
    if qs != [] {
      var n := |qs| - 1;
      var p := Passed(qs[..n], answers[..n]);
      PassedAmongAsked(qs[..n], answers[..n]);
      assert qs == qs[..n] + [qs[n]];
      assert multiset(qs) == multiset(qs[..n]) + multiset{qs[n]};
      if Judge(qs[n], answers[n]) == Right {
        assert multiset(Passed(qs, answers)) == multiset(p) + multiset{qs[n]};
      } else {
        assert Passed(qs, answers) == p + [];
      }
    }
  }

  /** One more reply extends the passed questions by that question when it
      passes, and by nothing otherwise. */
  lemma PassedStep(qs: seq<Record>, answers: seq<Option<int>>, i: nat)
    requires |answers| == |qs| && AllWellFormed(qs) && i < |qs|
    ensures Passed(qs[..i + 1], answers[..i + 1]) ==
      Passed(qs[..i], answers[..i]) + if Judge(qs[i], answers[i]) == Right then [qs[i]] else []
  {
    assert qs[..i + 1][..i] == qs[..i];
    assert answers[..i + 1][..i] == answers[..i];
  }

  lemma PrefixIncluded(s: seq<Record>, k: nat)
    requires k <= |s|
    ensures multiset(s[..k]) <= multiset(s)
  {
    assert s == s[..k] + s[k..];
  }

  /** Before a passing reply, the questions passed so far and this one are
      among the questions asked. */
  lemma PassedSoFar(qs: seq<Record>, answers: seq<Option<int>>, i: nat)
    requires |answers| == |qs| && AllWellFormed(qs) && i < |qs|
    requires Judge(qs[i], answers[i]) == Right
    ensures multiset(Passed(qs[..i], answers[..i]) + [qs[i]]) <= multiset(qs)
  {
    PassedStep(qs, answers, i);
    PassedAmongAsked(qs[..i + 1], answers[..i + 1]);
    PrefixIncluded(qs, i + 1);
  }

  /** The `remove` for a passing reply always finds its question. */
  lemma ReviewFinds(qs: seq<Record>, answers: seq<Option<int>>, i: nat)
    requires |answers| == |qs| && AllWellFormed(qs) && i < |qs|
    requires Judge(qs[i], answers[i]) == Right
    ensures qs[i] in RemoveEach(qs, Passed(qs[..i], answers[..i]))
  {
    PassedSoFar(qs, answers, i);
    RemovalFinds(qs, Passed(qs[..i], answers[..i]), qs[i]);
  }

  /** One pass of the review loop keeps the loop's invariant: removing the
      question of a passing reply, and nothing otherwise, gives the list less
      the questions passed so far. */
  lemma ReviewStep(qs: seq<Record>, answers: seq<Option<int>>, i: nat)
    requires |answers| == |qs| && AllWellFormed(qs) && i < |qs|
    ensures var before := RemoveEach(qs, Passed(qs[..i], answers[..i]));
      RemoveEach(qs, Passed(qs[..i + 1], answers[..i + 1])) ==
        if Judge(qs[i], answers[i]) == Right then RemoveFirst(before, qs[i]) else before
  {
    PassedStep(qs, answers, i);
    var passed := Passed(qs[..i], answers[..i]);
    if Judge(qs[i], answers[i]) == Right {
      RemoveEachSnoc(qs, passed, qs[i]);
    } else {
      assert passed + [] == passed;
    }
  }

  /** The review loop over the copy `questions[:]`: a passing reply removes
      that question from `questions`, any other reply leaves it. Each
      `remove` finds its question, so no `ValueError` is raised, and what is
      written back is exactly the asked questions less the passed ones. */
  method ReviewErrors(questions: seq<Record>, answers: seq<Option<int>>) returns (remaining: seq<Record>)
    requires |answers| == |questions| && AllWellFormed(questions)
    ensures remaining == RemoveEach(questions, Passed(questions, answers))
    ensures multiset(remaining) + multiset(Passed(questions, answers)) == multiset(questions)
    ensures |remaining| == |questions| - |Passed(questions, answers)|
  {
    remaining := questions;
    var i := 0;
    while i < |questions|
      invariant 0 <= i <= |questions|
      invariant remaining == RemoveEach(questions, Passed(questions[..i], answers[..i]))
    {
      ReviewStep(questions, answers, i);
      var question := questions[i];
      if Judge(question, answers[i]) == Right {
        ReviewFinds(questions, answers, i);
        remaining := RemoveFirst(remaining, question);
      }
      i := i + 1;
    }
    assert questions[..i] == questions;
    assert answers[..i] == answers;
    PassedAmongAsked(questions, answers);
    RemoveEachCount(questions, Passed(questions, answers));
  }

  /** A review passes as many questions as a session would score with the
      same replies. */
  lemma {:induction false} PassedCountsScore(qs: seq<Record>, answers: seq<Option<int>>)
    requires |answers| == |qs| && AllWellFormed(qs)
    ensures |Passed(qs, answers)| == Score(qs, answers)
  {
    if qs != [] {
      var n := |qs| - 1;
      PassedCountsScore(qs[..n], answers[..n]);
    }
  }

  /** A review in which every reply passes empties the file. */
  lemma AllPassedEmpties(qs: seq<Record>, answers: seq<Option<int>>)
    requires |answers| == |qs| && AllWellFormed(qs)
    requires forall i :: 0 <= i < |qs| ==> Judge(qs[i], answers[i]) == Right
    ensures RemoveEach(qs, Passed(qs, answers)) == []
  {
    FullScoreIff(qs, answers);
    PassedCountsScore(qs, answers);
    PassedAmongAsked(qs, answers);
    RemoveEachCount(qs, Passed(qs, answers));
  }
}
