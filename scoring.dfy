/** Scoring as `checkAnswer` and the quiz loop in `main` do it: one point
    for every question whose stored answer equals the given answer
    exactly. */
module Scoring {
  import opened QuestionFile
  import opened AnswerInput

  /** The point one answer earns. */
  function Hit(q: Question, answer: char): nat {
    if answer == q.correctAnswer then 1 else 0
  }

  /** The score after answering `qs` in order with `answers`. */
  function Score(qs: seq<Question>, answers: seq<char>): (n: nat)
    requires |answers| == |qs|
    ensures n <= |qs|
  {
    if qs == [] then 0
    else Score(qs[..|qs| - 1], answers[..|qs| - 1]) + Hit(qs[|qs| - 1], answers[|qs| - 1])
  }

  /** Answering one more question adds its hit to the score. */
  lemma ScoreStep(qs: seq<Question>, given: seq<char>, answer: char)
    requires |given| < |qs|
    ensures Score(qs[..|given| + 1], given + [answer])
         == Score(qs[..|given|], given) + Hit(qs[|given|], answer)
  {
    var n := |given|;
    assert qs[..n + 1][..n] == qs[..n];
    assert (given + [answer])[..n] == given;
  }

  /** The questions answered correctly, as positions. */
  function MatchedIndices(qs: seq<Question>, answers: seq<char>): set<nat>
    requires |answers| == |qs|
  {
    set i: nat | i < |qs| && answers[i] == qs[i].correctAnswer
  }

  /** The score is the number of positions where the answer matched. */
  lemma {:induction false} ScoreCountsMatches(qs: seq<Question>, answers: seq<char>)
    requires |answers| == |qs|
    ensures Score(qs, answers) == |MatchedIndices(qs, answers)|
  {
    if qs != [] {
      var n := |qs| - 1;
      var before := MatchedIndices(qs[..n], answers[..n]);
      ScoreCountsMatches(qs[..n], answers[..n]);
      if answers[n] == qs[n].correctAnswer {
        assert MatchedIndices(qs, answers) == before + {n};
        assert n !in before;
      } else {
        assert MatchedIndices(qs, answers) == before;
      }
    }
  }

  /** Answering every question with its stored answer scores them all. */
  lemma {:induction false} AllMatchedScoresAll(qs: seq<Question>, answers: seq<char>)
    requires |answers| == |qs|
    requires forall i :: 0 <= i < |qs| ==> answers[i] == qs[i].correctAnswer
    ensures Score(qs, answers) == |qs|
  {
    if qs != [] {
      var n := |qs| - 1;
      AllMatchedScoresAll(qs[..n], answers[..n]);
    }
  }

  /** The positions whose stored answer is one of a..d. */
  function AnswerableIndices(qs: seq<Question>): set<nat> {
    set i: nat | i < |qs| && IsChoice(qs[i].correctAnswer)
  }

  /** Given answers are always a..d, so a question whose stored answer is
      anything else is never scored: the score is at most the number of
      questions with a stored answer in a..d. */
  lemma ScoreAtMostAnswerable(qs: seq<Question>, answers: seq<char>)
    requires |answers| == |qs|
    requires forall i :: 0 <= i < |answers| ==> IsChoice(answers[i])
    ensures MatchedIndices(qs, answers) <= AnswerableIndices(qs)
    ensures Score(qs, answers) <= |AnswerableIndices(qs)|
  {
    ScoreCountsMatches(qs, answers);
    SubsetCardinality(MatchedIndices(qs, answers), AnswerableIndices(qs));
  }

  lemma SubsetCardinality(a: set<nat>, b: set<nat>)
    requires a <= b
    ensures |a| <= |b|
  {
    assert b == a + (b - a);
  }
}
