/** The values the quiz page derives from the per-question state: the score,
    the attempted and unattempted counts, the palette status and the skip
    rule applied when a question is left. */
module Scoring {
  import opened QuizTypes

  /** Every key lies below n: the maps only speak of questions of the run. */
  ghost predicate KeysBelow(keys: set<nat>, n: nat) {
    forall i :: i in keys ==> i < n
  }

  /** Question i counts as correct: an answer is stored and equals the key.
      An unanswered question never counts. */
  predicate IsCorrect(qs: seq<Question>, answers: map<nat, string>, i: nat)
    requires i < |qs|
  {
    i in answers && answers[i] == qs[i].answer
  }

  /** The score: the number of questions whose stored answer is the key,
      summed over the run from the first question on. */
  function Score(qs: seq<Question>, answers: map<nat, string>): (r: nat)
    ensures r <= |qs|
  {
    if qs == [] then 0
    else Score(qs[..|qs| - 1], answers) + (if IsCorrect(qs, answers, |qs| - 1) then 1 else 0)
  }

  /** The indices of the correctly answered questions. */
  ghost function CorrectIndices(qs: seq<Question>, answers: map<nat, string>): set<nat> {
    set i: nat | i < |qs| && IsCorrect(qs, answers, i)
  }

  /** The score is exactly the number of correctly answered questions. */
  lemma {:induction false} ScoreCountsCorrect(qs: seq<Question>, answers: map<nat, string>)
    ensures Score(qs, answers) == |CorrectIndices(qs, answers)|
  {
    if qs != [] {
      var init := qs[..|qs| - 1];
      ScoreCountsCorrect(init, answers);
      var k := |qs| - 1;
      assert forall i: nat | i < k :: IsCorrect(qs, answers, i) == IsCorrect(init, answers, i);
      if IsCorrect(qs, answers, k) {
        assert CorrectIndices(qs, answers) == CorrectIndices(init, answers) + {k};
      } else {
        assert CorrectIndices(qs, answers) == CorrectIndices(init, answers);
      }
    }
  }

  /** The attempted count: the answers present (none of them is null). */
  function AttemptedCount(answers: map<nat, string>): nat {
    |answers.Keys|
  }

  /** The number of questions below n that carry an answer. */
  function AnsweredBelow(answers: map<nat, string>, n: nat): (r: nat)
    ensures r <= n
  {
    if n == 0 then 0 else AnsweredBelow(answers, n - 1) + (if n - 1 in answers then 1 else 0)
  }

  lemma {:induction false} AnsweredBelowIsCard(answers: map<nat, string>, n: nat)
    ensures AnsweredBelow(answers, n) == |set i: nat | i < n && i in answers|
  {
    if n > 0 {
      AnsweredBelowIsCard(answers, n - 1);
      var prev := set i: nat | i < n - 1 && i in answers;
      if n - 1 in answers {
        assert (set i: nat | i < n && i in answers) == prev + {n - 1};
      } else {
        assert (set i: nat | i < n && i in answers) == prev;
      }
    }
  }

  /** With the answers kept to the run's questions, the attempted count is
      the number of answered questions of the run, so at most the run's length. */
  lemma AttemptedIsAnsweredQuestions(answers: map<nat, string>, total: nat)
    ensures KeysBelow(answers.Keys, total) ==> AttemptedCount(answers) == AnsweredBelow(answers, total) <= total
  {
    if KeysBelow(answers.Keys, total) {
      AnsweredBelowIsCard(answers, total);
      assert (set i: nat | i < total && i in answers) == answers.Keys;
    }
  }

  /** The unattempted count shown during a run, never negative. */
  function UnattemptedCount(total: nat, answers: map<nat, string>): (r: nat)
    ensures KeysBelow(answers.Keys, total) ==> r + AttemptedCount(answers) == total
  {
    AttemptedIsAnsweredQuestions(answers, total);
    if total >= AttemptedCount(answers) then total - AttemptedCount(answers) else 0
  }

  lemma {:induction false} ScoreAtMostAnswered(qs: seq<Question>, answers: map<nat, string>)
    ensures Score(qs, answers) <= AnsweredBelow(answers, |qs|)
  {
    if qs != [] {
      ScoreAtMostAnswered(qs[..|qs| - 1], answers);
    }
  }

  /** Only answered questions score: the score never exceeds the attempted count. */
  lemma ScoreAtMostAttempted(qs: seq<Question>, answers: map<nat, string>)
    requires KeysBelow(answers.Keys, |qs|)
    ensures Score(qs, answers) <= AttemptedCount(answers)
  {
    ScoreAtMostAnswered(qs, answers);
    AttemptedIsAnsweredQuestions(answers, |qs|);
  }

  /** The palette colour of question i, by priority: answered and marked,
      then marked only, then skipped (unanswered), then answered, then none. */
  function StatusOf(answers: map<nat, string>, marked: set<nat>, skipped: set<nat>, i: nat): (s: Status)
    ensures s == AttemptedMarked <==> i in answers && i in marked
    ensures s == MarkedOnly <==> i !in answers && i in marked
    ensures s == Skipped <==> i !in answers && i !in marked && i in skipped
    ensures s == Attempted <==> i in answers && i !in marked
    ensures s == Unattempted <==> i !in answers && i !in marked && i !in skipped
  {
    var answered := i in answers;
    var mk := i in marked;
    var sk := i in skipped;
    if answered && mk then AttemptedMarked
    else if !answered && mk then MarkedOnly
    else if !answered && sk then Skipped
    else if answered then Attempted
    else Unattempted
  }

  /** The leave test `!answers[current]`: an empty-string answer is falsy,
      so it reads as unanswered here although it is counted as attempted. */
  predicate HasTruthyAnswer(answers: map<nat, string>, i: nat) {
    i in answers && answers[i] != ""
  }

  /** The skipped set after leaving question `current`: it gains `current`
      exactly when that question has no (truthy) answer and is not marked,
      and no other index changes. */
  function SkipOnLeave(answers: map<nat, string>, marked: set<nat>, skipped: set<nat>, current: nat): (r: set<nat>)
    ensures r - {current} == skipped - {current}
    ensures current in r <==> current in skipped || (!HasTruthyAnswer(answers, current) && current !in marked)
    ensures skipped <= r
  {
    if !HasTruthyAnswer(answers, current) && current !in marked then skipped + {current} else skipped
  }
}
