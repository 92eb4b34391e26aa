/** The quiz panel: three multiple-choice questions asked in turn, each
    answerable once, with a running score and a final result screen. */
module TabQuiz {
  import opened Wrappers

  /** A question, reduced to what the state machine uses: how many options
      it offers and the index of the correct one. */
  datatype Question = Question(optionCount: nat, correct: nat)

  /** The fixed question table: encryption of the payload (option 1), the
      part that detects tampering (option 2), where the secret lives
      (option 1). */
  const Questions: seq<Question> := [Question(3, 1), Question(3, 2), Question(3, 1)]

  /** Every question's correct index names one of its options. */
  lemma QuestionsWellFormed()
    ensures |Questions| == 3
    ensures forall i :: 0 <= i < |Questions| ==> Questions[i].correct < Questions[i].optionCount
  {
  }

  /** Whether `answer` is the correct answer to question `i`. */
  predicate IsCorrect(i: nat, answer: Option<int>)
    requires i < |Questions|
  {
    answer == Some(Questions[i].correct as int)
  }

  /** How many of the answers to the first `|answers|` questions are
      correct. */
  function CountCorrect(answers: seq<Option<int>>): (n: nat)
    requires |answers| <= |Questions|
    ensures n <= |answers|
    decreases |answers|
  {
    if answers == [] then 0
    else CountCorrect(answers[..|answers| - 1]) + (if IsCorrect(|answers| - 1, answers[|answers| - 1]) then 1 else 0)
  }

  /** A full score means every question was answered correctly, and the
      converse. */
  lemma {:induction false} PerfectIffAllCorrect(answers: seq<Option<int>>)
    requires |answers| <= |Questions|
    ensures CountCorrect(answers) == |answers| <==> forall i :: 0 <= i < |answers| ==> IsCorrect(i, answers[i])
    decreases |answers|
  {
    if answers != [] {
      var init := answers[..|answers| - 1];
      PerfectIffAllCorrect(init);
      assert forall i :: 0 <= i < |init| ==> init[i] == answers[i];
    }
  }

  /** The quiz's state.  The ghost field `answers` records what was chosen
      for each question already left behind (`None` where the question was
      skipped), so that the score can be stated as a count. */
  class Quiz {
    var currentQ: nat
    var selected: Option<int>
    var score: nat
    var showResult: bool
    ghost var answers: seq<Option<int>>

    /** The score is the number of correct answers given so far, the
        current selection included. */
    ghost predicate Valid()
      reads this
    {
      currentQ < |Questions| && |answers| == currentQ &&
      score == CountCorrect(answers + [selected])
    }

    /** The score never exceeds the number of questions answered, hence
        never exceeds the number of questions. */
    lemma ScoreBounded()
      requires Valid()
      ensures score <= currentQ + (if selected.Some? then 1 else 0) <= |Questions|
    {
      var h := answers + [selected];
      assert h[..|h| - 1] == answers;
      if selected.None? {
        assert !IsCorrect(currentQ, h[|h| - 1]);
      }
    }

    constructor()
      ensures Valid()
      ensures currentQ == 0 && selected == None && score == 0 && !showResult
    {
      currentQ := 0;
      selected := None;
      score := 0;
      showResult := false;
      answers := [];
      new;
      assert (answers + [selected])[..0] == [];
    }

    /** Choosing option `index`: ignored once an option is selected;
        otherwise the choice is recorded and the score goes up by one exactly
        when it is the correct one. */
    method HandleAnswer(index: int)
      modifies this
      requires Valid()
      ensures Valid()
      ensures currentQ == old(currentQ) && showResult == old(showResult)
      ensures old(selected).Some? ==> selected == old(selected) && score == old(score)
      ensures old(selected).None? ==> selected == Some(index)
      ensures old(selected).None? ==> score == old(score) + (if index == Questions[currentQ].correct as int then 1 else 0)
    {
      if selected.Some? {
        return;
      }
      ghost var before := answers + [selected];
      assert before[..|before| - 1] == answers;
      selected := Some(index);
      ghost var after := answers + [selected];
      assert after[..|after| - 1] == answers;
      if index == Questions[currentQ].correct as int {
        score := score + 1;
      }
    }

    /** Moving on: to the next question with nothing selected, or, after the
        last question, to the result screen. */
    method NextQuestion()
      modifies this
      requires Valid()
      ensures Valid()
      ensures old(currentQ) < |Questions| - 1 ==>
        currentQ == old(currentQ) + 1 && selected == None && score == old(score) && showResult == old(showResult)
      ensures old(currentQ) == |Questions| - 1 ==>
        showResult && currentQ == old(currentQ) && selected == old(selected) && score == old(score)
    {
      if currentQ < |Questions| - 1 {
        ghost var h := answers + [selected];
        answers := h;
        currentQ := currentQ + 1;
        selected := None;
        ghost var h' := answers + [selected];
        assert h'[..|h'| - 1] == h;
      } else {
        showResult := true;
      }
    }

    /** Try again: back to the first question with a zero score. */
    method Reset()
      modifies this
      ensures Valid()
      ensures currentQ == 0 && selected == None && score == 0 && !showResult
    {
      currentQ := 0;
      selected := None;
      score := 0;
      showResult := false;
      answers := [];
      assert (answers + [selected])[..0] == [];
    }
  }

  /** Answering 1, 2, 1 reaches the result screen with a perfect score. */
  method PerfectRun() returns (score: nat, finished: bool)
    ensures score == |Questions| && finished
  {
    var quiz := new Quiz();
    quiz.HandleAnswer(1);
    quiz.NextQuestion();
    quiz.HandleAnswer(2);
    quiz.NextQuestion();
    quiz.HandleAnswer(1);
    quiz.NextQuestion();
    score, finished := quiz.score, quiz.showResult;
  }

  /** A wrong answer anywhere rules out the perfect score. */
  method OneWrongRun() returns (score: nat, finished: bool)
    ensures score == |Questions| - 1 && finished
  {
    var quiz := new Quiz();
    quiz.HandleAnswer(0);
    quiz.NextQuestion();
    quiz.HandleAnswer(2);
    quiz.HandleAnswer(0);
    quiz.NextQuestion();
    quiz.HandleAnswer(1);
    quiz.NextQuestion();
    score, finished := quiz.score, quiz.showResult;
  }
}
