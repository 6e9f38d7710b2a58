/** The lesson screen of LessonView.tsx: the answer evaluator and the per-lesson
    state (question index, score, hearts, selected answer, answer status) that its
    three handlers update. */
module LessonProgress {
  import opened Wrappers
  import opened Types
  import JsText

  /** The hearts a lesson starts with (LessonView.tsx:39). */
  const MaxHearts: nat := 5

  /** The `selectedAnswer` state: the option string of an image-choice card, or the
      word texts a sentence-construction card reports. */
  datatype Answer = Choice(option: string) | Words(words: seq<string>)

  /** JavaScript truthiness of `selectedAnswer`: `null` and the empty string are falsy,
      while an array is truthy even when it is empty. */
  function IsTruthy(a: Option<Answer>): (truthy: bool)
    ensures truthy <==> a.Some? && a.value != Choice("")
  {
    match a
    case None => false
    case Some(Choice(s)) => s != ""
    case Some(Words(_)) => true
  }

  /** The check of `handleCheckAnswer`: an image-choice answer must be the correct option
      exactly; a sentence answer must join, with single spaces, to the same string as the
      correct word order; an answer of the other kind is wrong. */
  predicate IsCorrect(q: Question, a: Answer)
  {
    if q.ImageChoice? && a.Choice? then a.option == q.correctAnswer
    else if q.SentenceConstruction? && a.Words? then JsText.Join(a.words, " ") == JsText.Join(q.correctAnswerInOrder, " ")
    else false
  }

  /** A word as a sentence card shows it: not empty, and without a space inside. */
  predicate IsToken(w: string)
  {
    |w| > 0 && ' ' !in w
  }

  /** For answers made of such words, a sentence answer is right exactly when it is the
      correct word sequence, in the same order. */
  lemma SentenceCorrectIffSameWords(q: Question, words: seq<string>)
    requires q.SentenceConstruction?
    requires forall i :: 0 <= i < |words| ==> IsToken(words[i])
    requires forall i :: 0 <= i < |q.correctAnswerInOrder| ==> IsToken(q.correctAnswerInOrder[i])
    ensures IsCorrect(q, Words(words)) <==> words == q.correctAnswerInOrder
  {
    var order := q.correctAnswerInOrder;
    if IsCorrect(q, Words(words)) {
      if |words| == 0 || |order| == 0 {
        if |words| > 0 {
          JsText.JoinHead(words, ' ');
        }
        if |order| > 0 {
          JsText.JoinHead(order, ' ');
        }
      } else {
        JsText.JoinInjective(words, order, ' ');
      }
    }
  }

  /** The check is order-sensitive: the right words in the wrong order are wrong. */
  lemma WrongOrderIsIncorrect(title: string, phrase: string, bank: seq<string>)
    ensures !IsCorrect(SentenceConstruction(title, phrase, ["I", "eat"], bank), Words(["eat", "I"]))
  {
    var q := SentenceConstruction(title, phrase, ["I", "eat"], bank);
    SentenceCorrectIffSameWords(q, ["eat", "I"]);
  }

  /** The check compares joined strings, so one word holding a space matches two words. */
  lemma JoinedStringsAreCompared(title: string, phrase: string, bank: seq<string>)
    ensures IsCorrect(SentenceConstruction(title, phrase, ["a", "b"], bank), Words(["a b"]))
  {
  }

  /** An image-choice answer is compared exactly: no case folding. */
  lemma ImageChoiceIsCaseSensitive(title: string, text: string, prompt: string, options: seq<string>)
    ensures !IsCorrect(ImageChoice(title, text, prompt, options, "Chat"), Choice("chat"))
  {
    assert "Chat"[0] != "chat"[0];
  }

  /** An answer of the wrong kind for the question is judged incorrect. */
  lemma WrongKindIsIncorrect(q: Question, a: Answer)
    requires q.ImageChoice? <==> a.Words?
    ensures !IsCorrect(q, a)
  {
  }

  /** The state of one mounted lesson screen. `correctChecks` and `wrongChecks` count the
      checks made so far; they exist only to state the invariant. */
  class Session {
    var lesson: Option<Lesson>
    var currentQuestionIndex: nat
    var score: nat
    var hearts: nat
    var selectedAnswer: Option<Answer>
    var answerStatus: AnswerStatus
    ghost var correctChecks: nat
    ghost var wrongChecks: nat

    /** Score counts the correct checks, hearts lose one per wrong check down to 0,
        and the index points into the loaded lesson. */
    ghost predicate Valid()
      reads this
      ensures Valid() ==> hearts <= MaxHearts && score <= correctChecks + wrongChecks
    {
      && score == correctChecks
      && hearts == (if wrongChecks >= MaxHearts then 0 else MaxHearts - wrongChecks)
      && (lesson.None? ==> currentQuestionIndex == 0)
      && (lesson.Some? ==> currentQuestionIndex < |lesson.value.questions|)
    }

    /** The initial `useState` values (LessonView.tsx:33-42). */
    constructor ()
      ensures Valid()
      ensures lesson.None? && currentQuestionIndex == 0 && score == 0 && hearts == MaxHearts
      ensures selectedAnswer.None? && answerStatus == Unanswered
    {
      lesson := None;
      currentQuestionIndex := 0;
      score := 0;
      hearts := MaxHearts;
      selectedAnswer := None;
      answerStatus := Unanswered;
      correctChecks := 0;
      wrongChecks := 0;
    }

    /** `setLesson(lessonData)` once the lesson has been fetched. */
    method LoadLesson(l: Lesson)
      requires Valid()
      requires currentQuestionIndex < |l.questions|
      modifies this`lesson
      ensures Valid() && lesson == Some(l)
    {
      lesson := Some(l);
    }

    /** `handleAnswerSelect`: a new selection takes effect only while unanswered. */
    method SelectAnswer(option: Answer)
      requires Valid()
      modifies this`selectedAnswer
      ensures Valid()
      ensures selectedAnswer == if old(answerStatus) == Unanswered then Some(option) else old(selectedAnswer)
    {
      if answerStatus == Unanswered {
        selectedAnswer := Some(option);
      }
    }

    /** `handleCheckAnswer`, the transient 'checking' status folded into one step. Without a
        truthy selection or a loaded lesson nothing changes; otherwise a correct answer adds
        one to the score, a wrong one takes a heart (never below 0). */
    method CheckAnswer()
      requires Valid()
      modifies this`score, this`hearts, this`answerStatus, this`correctChecks, this`wrongChecks
      ensures Valid()
      ensures !IsTruthy(selectedAnswer) || lesson.None? ==>
        && score == old(score) && hearts == old(hearts) && answerStatus == old(answerStatus)
        && correctChecks == old(correctChecks) && wrongChecks == old(wrongChecks)
      ensures IsTruthy(selectedAnswer) && lesson.Some? ==>
        var right := IsCorrect(lesson.value.questions[currentQuestionIndex], selectedAnswer.value);
        && correctChecks + wrongChecks == old(correctChecks + wrongChecks) + 1
        && (right ==> score == old(score) + 1 && hearts == old(hearts) && answerStatus == Correct)
        && (!right ==> score == old(score) && hearts == Max0(old(hearts) - 1) && answerStatus == Incorrect)
    {
      if !IsTruthy(selectedAnswer) || lesson.None? {
        return;
      }
      var question := lesson.value.questions[currentQuestionIndex];
      var right := false;
      if question.ImageChoice? && selectedAnswer.value.Choice? {
        right := selectedAnswer.value.option == question.correctAnswer;
      } else if question.SentenceConstruction? && selectedAnswer.value.Words? {
        right := JsText.Join(selectedAnswer.value.words, " ") == JsText.Join(question.correctAnswerInOrder, " ");
      }
      if right {
        score := score + 1;
        correctChecks := correctChecks + 1;
        answerStatus := Correct;
      } else {
        hearts := Max0(hearts - 1);
        wrongChecks := wrongChecks + 1;
        answerStatus := Incorrect;
      }
    }

    /** `handleContinue`. After a wrong answer that took the last heart the lesson ends at
        once; otherwise it moves to the next question, or ends after the last one. A lesson
        ends by reporting the score and the FULL number of questions. */
    method Continue() returns (completed: Option<ScoreReport>)
      requires Valid()
      modifies this`currentQuestionIndex, this`selectedAnswer, this`answerStatus
      ensures Valid()
      ensures lesson.None? ==> completed.None? && unchanged(this)
      ensures lesson.Some? && old(answerStatus) == Incorrect && old(hearts) == 0 ==>
        completed == Some(ScoreReport(score, |lesson.value.questions|)) && unchanged(this)
      ensures lesson.Some? && !(old(answerStatus) == Incorrect && old(hearts) == 0) ==>
        if old(currentQuestionIndex) < |lesson.value.questions| - 1 then
          && completed.None?
          && currentQuestionIndex == old(currentQuestionIndex) + 1
          && selectedAnswer.None? && answerStatus == Unanswered
        else
          completed == Some(ScoreReport(score, |lesson.value.questions|)) && unchanged(this)
    {
      if lesson.None? {
        return None;
      }
      var total := |lesson.value.questions|;
      if answerStatus == Incorrect && hearts == 0 {
        return Some(ScoreReport(score, total));
      }
      if currentQuestionIndex < total - 1 {
        currentQuestionIndex := currentQuestionIndex + 1;
        selectedAnswer := None;
        answerStatus := Unanswered;
        completed := None;
      } else {
        completed := Some(ScoreReport(score, total));
      }
    }
  }

  /** `Math.max(0, h)` */
  function Max0(h: int): nat
  {
    if h < 0 then 0 else h
  }
}
