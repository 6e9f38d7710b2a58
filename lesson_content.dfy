/** The rule-based parts of geminiService.ts: how many topics a lesson plan asks for,
    the check that a generated lesson has enough questions, and the repair that puts
    every word of a sentence's correct answer into its word bank. The generative calls
    themselves are outside the model: the repair starts from an already-parsed lesson. */
module LessonContent {
  import opened Wrappers
  import opened Types

  /** The fewest questions a generated lesson may have (geminiService.ts:119). */
  const MinQuestions: nat := 3

  /** The error every failed lesson generation surfaces (geminiService.ts:138). */
  const LessonFailure: string := "Failed to generate lesson. The AI might be busy, please try again."

  /** `lessonCount`: the number of topics in the lesson plan for a difficulty. */
  function TopicCount(d: Difficulty): (n: nat)
    ensures n == 5 <==> d == Beginner
    ensures n == 7 <==> d == Intermediary
    ensures n == 10 <==> d == Expert
  {
    match d
    case Beginner => 5
    case Intermediary => 7
    case Expert => 10
  }

  /** The position of a difficulty on the selector, easiest first. */
  function Level(d: Difficulty): nat
  {
    match d
    case Beginner => 0
    case Intermediary => 1
    case Expert => 2
  }

  /** A harder level always asks for a longer lesson plan. */
  lemma TopicCountGrowsWithLevel(d1: Difficulty, d2: Difficulty)
    requires Level(d1) < Level(d2)
    ensures TopicCount(d1) < TopicCount(d2)
  {
  }

  /** The parsed JSON of a generated lesson; the `questions` field may be missing. */
  datatype ParsedLesson = ParsedLesson(title: string, questions: Option<seq<Question>>)

  /** No word occurs twice. */
  predicate NoDuplicates(ws: seq<string>)
  {
    forall i, j :: 0 <= i < j < |ws| ==> ws[i] != ws[j]
  }

  /** The position of the first occurrence of `w` in `ws`. */
  function FirstAt(ws: seq<string>, w: string): (k: nat)
    requires w in ws
    ensures k < |ws| && ws[k] == w && w !in ws[..k]
  {
    if ws[0] == w then 0
    else
      var k := FirstAt(ws[1..], w);
      assert ws[..k + 1] == [ws[0]] + ws[1..][..k];
      k + 1
  }

  /** An occurrence with no earlier one is the first occurrence. */
  lemma FirstAtIs(ws: seq<string>, w: string, k: nat)
    requires k < |ws| && ws[k] == w && w !in ws[..k]
    ensures FirstAt(ws, w) == k
  {
  }

  /** Appending a word does not move the first occurrence of a word already present. */
  lemma FirstAtSnoc(ws: seq<string>, last: string, w: string)
    requires w in ws
    ensures FirstAt(ws + [last], w) == FirstAt(ws, w)
  {
    var k := FirstAt(ws, w);
    assert (ws + [last])[..k] == ws[..k];
    FirstAtIs(ws + [last], w, k);
  }

  /** Both words occur in `ws`, and `x` occurs first. */
  predicate FirstBefore(ws: seq<string>, x: string, y: string)
  {
    x in ws && y in ws && FirstAt(ws, x) < FirstAt(ws, y)
  }

  /** The words of `d` appear in `ws`, in the order of their first occurrences there. */
  predicate InFirstOccurrenceOrder(d: seq<string>, ws: seq<string>)
  {
    forall i, j :: 0 <= i < j < |d| ==> FirstBefore(ws, d[i], d[j])
  }

  /** Appending a word to `ws` keeps an ordered list ordered, and a word new to `ws` can
      follow it. */
  lemma OrderSnoc(d: seq<string>, ws: seq<string>, last: string)
    requires forall w :: w in d ==> w in ws
    requires InFirstOccurrenceOrder(d, ws)
    ensures InFirstOccurrenceOrder(d, ws + [last])
    ensures last !in ws ==> InFirstOccurrenceOrder(d + [last], ws + [last])
  {
    forall w | w in d ensures FirstAt(ws + [last], w) == FirstAt(ws, w) {
      FirstAtSnoc(ws, last, w);
    }
    if last !in ws {
      FirstAtIs(ws + [last], last, |ws|);
      assert (ws + [last])[..|ws|] == ws;
      var e := d + [last];
      forall i, j | 0 <= i < j < |e|
        ensures FirstBefore(ws + [last], e[i], e[j])
      {
        assert e[i] == d[i] && e[i] in d;
        if j < |d| {
          assert e[j] == d[j] && e[j] in d;
        }
      }
    }
  }

  /** `new Set(ws)` iterated in insertion order: the same words, each once, in the order of
      their first occurrences. */
  function Distinct(ws: seq<string>): (d: seq<string>)
    ensures forall w :: w in d <==> w in ws
    ensures NoDuplicates(d)
    ensures InFirstOccurrenceOrder(d, ws)
  {
    if |ws| == 0 then []
    else
      var front := Distinct(ws[..|ws| - 1]);
      var last := ws[|ws| - 1];
      assert ws == ws[..|ws| - 1] + [last];
      OrderSnoc(front, ws[..|ws| - 1], last);
      if last in front then front else front + [last]
  }

  /** A list without duplicates is its own set. */
  lemma {:induction false} DistinctOfDistinctWords(ws: seq<string>)
    requires NoDuplicates(ws)
    ensures Distinct(ws) == ws
  {
    if |ws| > 0 {
      var front, last := ws[..|ws| - 1], ws[|ws| - 1];
      assert NoDuplicates(front);
      DistinctOfDistinctWords(front);
      assert last !in front;
      assert ws == front + [last];
    }
  }

  /** The words of `ws` that are not in `bank`, in order. */
  function NotIn(bank: seq<string>, ws: seq<string>): (r: seq<string>)
    ensures |r| <= |ws|
  {
    if |ws| == 0 then []
    else
      var last := ws[|ws| - 1];
      NotIn(bank, ws[..|ws| - 1]) + (if last in bank then [] else [last])
  }

  /** The filtered list holds exactly the words of `ws` that are not in `bank`. */
  lemma {:induction false} NotInMembers(bank: seq<string>, ws: seq<string>)
    ensures forall w :: w in NotIn(bank, ws) <==> w in ws && w !in bank
  {
    if |ws| > 0 {
      NotInMembers(bank, ws[..|ws| - 1]);
      assert ws == ws[..|ws| - 1] + [ws[|ws| - 1]];
    }
  }

  /** The words of a correct answer the bank lacks: each distinct missing word once, in
      order of first occurrence in the answer. A word repeated in the answer is appended
      at most once. */
  function Missing(bank: seq<string>, answer: seq<string>): (m: seq<string>)
    ensures forall w :: w in m <==> w in answer && w !in bank
    ensures NoDuplicates(m)
    ensures InFirstOccurrenceOrder(m, answer)
  {
    var d := Distinct(answer);
    NotInKeepsNoDuplicates(bank, d);
    NotInMembers(bank, d);
    NotInKeepsOrder(bank, d, answer);
    NotIn(bank, d)
  }

  /** Filtering keeps the relative order of the words that stay. */
  lemma {:induction false} NotInKeepsOrder(bank: seq<string>, ws: seq<string>, answer: seq<string>)
    requires InFirstOccurrenceOrder(ws, answer)
    ensures InFirstOccurrenceOrder(NotIn(bank, ws), answer)
  {
    if |ws| > 0 {
      var front, last := ws[..|ws| - 1], ws[|ws| - 1];
      OrderPrefix(ws, answer);
      NotInKeepsOrder(bank, front, answer);
      if last in bank {
        assert NotIn(bank, ws) == NotIn(bank, front);
      } else {
        NotInMembers(bank, front);
        OrderAppend(NotIn(bank, front), ws, answer);
        assert NotIn(bank, ws) == NotIn(bank, front) + [last];
      }
    }
  }

  /** Dropping the last word keeps a list in order. */
  lemma OrderPrefix(ws: seq<string>, answer: seq<string>)
    requires |ws| > 0 && InFirstOccurrenceOrder(ws, answer)
    ensures InFirstOccurrenceOrder(ws[..|ws| - 1], answer)
  {
    var front := ws[..|ws| - 1];
    forall i, j | 0 <= i < j < |front|
      ensures FirstBefore(answer, front[i], front[j])
    {
      assert front[i] == ws[i] && front[j] == ws[j];
    }
  }

  /** An ordered list drawn from the front of an ordered `ws` stays ordered when the last
      word of `ws` follows it. */
  lemma OrderAppend(r: seq<string>, ws: seq<string>, answer: seq<string>)
    requires |ws| > 0 && InFirstOccurrenceOrder(ws, answer)
    requires InFirstOccurrenceOrder(r, answer)
    requires forall w :: w in r ==> w in ws[..|ws| - 1]
    ensures InFirstOccurrenceOrder(r + [ws[|ws| - 1]], answer)
  {
    var front, e := ws[..|ws| - 1], r + [ws[|ws| - 1]];
    forall i, j | 0 <= i < j < |e|
      ensures FirstBefore(answer, e[i], e[j])
    {
      if j == |r| {
        assert e[i] == r[i] && r[i] in r;
        var p :| 0 <= p < |front| && front[p] == r[i];
        assert ws[p] == e[i] && ws[|ws| - 1] == e[j];
      } else {
        assert e[i] == r[i] && e[j] == r[j];
      }
    }
  }

  /** Filtering a list without duplicates leaves a list without duplicates. */
  lemma {:induction false} NotInKeepsNoDuplicates(bank: seq<string>, ws: seq<string>)
    requires NoDuplicates(ws)
    ensures NoDuplicates(NotIn(bank, ws))
  {
    if |ws| > 0 {
      var front, last := ws[..|ws| - 1], ws[|ws| - 1];
      NotInKeepsNoDuplicates(bank, front);
      NotInMembers(bank, front);
      assert last !in front;
    }
  }

  /** After repair every word of the correct answer is in the bank. */
  lemma RepairCoversAnswer(bank: seq<string>, answer: seq<string>)
    ensures forall w :: w in answer ==> w in bank + Missing(bank, answer)
  {
    NotInMembers(bank, Distinct(answer));
  }

  /** Repair is idempotent: a second pass finds nothing missing. */
  lemma RepairIdempotent(bank: seq<string>, answer: seq<string>)
    ensures Missing(bank + Missing(bank, answer), answer) == []
  {
    RepairCoversAnswer(bank, answer);
    NothingMissing(bank + Missing(bank, answer), Distinct(answer));
  }

  /** Filtering words that all are in the bank leaves nothing. */
  lemma {:induction false} NothingMissing(bank: seq<string>, ws: seq<string>)
    requires forall w :: w in ws ==> w in bank
    ensures NotIn(bank, ws) == []
  {
    if |ws| > 0 {
      NothingMissing(bank, ws[..|ws| - 1]);
    }
  }

  /** Repair gives a word already in the bank no further tile, however often the answer
      repeats it, and gives each missing word exactly one tile. */
  lemma RepairAddsNoCopies(bank: seq<string>, answer: seq<string>)
    ensures forall w :: w in bank ==> multiset(bank + Missing(bank, answer))[w] == multiset(bank)[w]
    ensures forall w :: w in answer && w !in bank ==> multiset(bank + Missing(bank, answer))[w] == 1
  {
    var m := Missing(bank, answer);
    forall w | w in answer && w !in bank
      ensures multiset(bank + m)[w] == 1
    {
      OnceWithoutDuplicates(m, w);
    }
  }

  /** A word of a list without duplicates occurs in it exactly once. */
  lemma {:induction false} OnceWithoutDuplicates(ws: seq<string>, w: string)
    requires NoDuplicates(ws) && w in ws
    ensures multiset(ws)[w] == 1
  {
    var front, last := ws[..|ws| - 1], ws[|ws| - 1];
    assert ws == front + [last];
    assert NoDuplicates(front);
    if last == w {
      assert w !in front;
    } else {
      OnceWithoutDuplicates(front, w);
    }
  }

  /** An answer that repeats a word the bank holds once is not repaired: the bank keeps one
      `"la"` tile for an answer that needs two, so the sentence cannot be built from it. */
  lemma RepeatedWordGetsOneTile()
    ensures var bank, answer := ["la", "fille", "mange", "pomme"], ["la", "fille", "mange", "la", "pomme"];
      && Missing(bank, answer) == []
      && multiset(answer)["la"] == 2
      && multiset(bank + Missing(bank, answer))["la"] == 1
  {
    var bank, answer := ["la", "fille", "mange", "pomme"], ["la", "fille", "mange", "la", "pomme"];
    NothingMissing(bank, Distinct(answer));
  }

  /** The example of a bank missing one answer word. */
  lemma RepairExample()
    ensures Missing(["a", "x", "y"], ["a", "b"]) == ["b"]
  {
    assert Distinct(["a", "b"]) == ["a", "b"] by {
      DistinctOfDistinctWords(["a", "b"]);
    }
    assert NotIn(["a", "x", "y"], ["a", "b"]) == ["b"] by {
      assert ["a", "b"][..1] == ["a"];
      assert NotIn(["a", "x", "y"], ["a"]) == [] by {
        assert ["a"][..0] == [];
      }
    }
  }

  /** One more word either extends the filtered list by itself or leaves it as it was;
      a word new to the list is in the bank-plus-filtered list iff it is in the bank. */
  lemma NotInStep(bank: seq<string>, done: seq<string>, word: string)
    ensures NotIn(bank, done + [word]) == NotIn(bank, done) + (if word in bank then [] else [word])
    ensures word !in done ==> (word in bank + NotIn(bank, done) <==> word in bank)
  {
    assert (done + [word])[..|done|] == done;
    NotInMembers(bank, done);
  }

  /** In a list without duplicates no entry occurs before its own position. */
  lemma EarlierDiffer(ws: seq<string>, i: nat)
    requires NoDuplicates(ws) && i < |ws|
    ensures ws[i] !in ws[..i]
  {
  }

  /** The inner `for` loop of the repair: each word of a list without duplicates that the
      bank does not yet include is pushed onto it. */
  method AppendMissing(wordBank: seq<string>, correctWords: seq<string>) returns (repaired: seq<string>)
    requires NoDuplicates(correctWords)
    ensures repaired == wordBank + NotIn(wordBank, correctWords)
  {
    repaired := wordBank;
    for i := 0 to |correctWords|
      invariant repaired == wordBank + NotIn(wordBank, correctWords[..i])
    {
      var word := correctWords[i];
      assert correctWords[..i + 1] == correctWords[..i] + [word];
      EarlierDiffer(correctWords, i);
      NotInStep(wordBank, correctWords[..i], word);
      if word !in repaired {
        repaired := repaired + [word];
      }
    }
    assert correctWords[..|correctWords|] == correctWords;
  }

  /** Every word of the correct answer occurs in the bank at least once. A word the answer
      repeats may still have a single tile (see `RepeatedWordGetsOneTile`). */
  predicate AnswerWordsInBank(q: Question)
  {
    q.SentenceConstruction? ==> forall w :: w in q.correctAnswerInOrder ==> w in q.wordBank
  }

  /** The word-bank repair of one sentence question: the distinct words of the correct
      answer (`new Set(...)`) that the bank lacks are appended to it. */
  method RepairWordBank(wordBank: seq<string>, correctAnswerInOrder: seq<string>)
    returns (repaired: seq<string>)
    ensures repaired == wordBank + Missing(wordBank, correctAnswerInOrder)
    ensures forall w :: w in correctAnswerInOrder ==> w in repaired
  {
    repaired := AppendMissing(wordBank, Distinct(correctAnswerInOrder));
    RepairCoversAnswer(wordBank, correctAnswerInOrder);
  }

  /** A question as repair leaves it: an image-choice question is untouched, a sentence
      question gains the missing words at the end of its bank. */
  function Repaired(q: Question): (r: Question)
    ensures q.ImageChoice? ==> r == q
    ensures q.SentenceConstruction? ==>
      r.SentenceConstruction? && r.(wordBank := q.wordBank) == q && q.wordBank <= r.wordBank
    ensures AnswerWordsInBank(r)
  {
    match q
    case ImageChoice(_, _, _, _, _) => q
    case SentenceConstruction(_, _, answer, bank) =>
      RepairCoversAnswer(bank, answer);
      q.(wordBank := bank + Missing(bank, answer))
  }

  /** The `forEach` over the questions, repairing each sentence question in place. */
  method RepairQuestions(questions: seq<Question>) returns (repaired: seq<Question>)
    ensures |repaired| == |questions|
    ensures forall i :: 0 <= i < |questions| ==> repaired[i] == Repaired(questions[i])
    ensures forall i :: 0 <= i < |questions| && questions[i].ImageChoice? ==> repaired[i] == questions[i]
    ensures forall i :: 0 <= i < |questions| ==> AnswerWordsInBank(repaired[i])
  {
    repaired := questions;
    for i := 0 to |questions|
      invariant |repaired| == |questions|
      invariant forall j :: 0 <= j < i ==> repaired[j] == Repaired(questions[j]) && AnswerWordsInBank(repaired[j])
      invariant forall j :: i <= j < |questions| ==> repaired[j] == questions[j]
    {
      var q := repaired[i];
      if q.SentenceConstruction? {
        var bank := RepairWordBank(q.wordBank, q.correctAnswerInOrder);
        repaired := repaired[i := q.(wordBank := bank)];
      }
    }
  }

  /** What `generateLesson` does with a parsed lesson: a missing `questions` field or fewer
      than three questions is an error; otherwise every sentence question is repaired. */
  method CheckAndRepair(parsed: ParsedLesson) returns (r: Result<Lesson, string>)
    ensures r.Failure? <==> parsed.questions.None? || |parsed.questions.value| < MinQuestions
    ensures r.Failure? ==> r.error == LessonFailure
    ensures r.Success? ==>
      && r.value.title == parsed.title
      && |r.value.questions| == |parsed.questions.value| >= MinQuestions
      && (forall i :: 0 <= i < |r.value.questions| ==> r.value.questions[i] == Repaired(parsed.questions.value[i]))
      && (forall i :: 0 <= i < |r.value.questions| ==> AnswerWordsInBank(r.value.questions[i]))
  {
    if parsed.questions.None? || |parsed.questions.value| < MinQuestions {
      return Failure(LessonFailure);
    }
    var questions := RepairQuestions(parsed.questions.value);
    r := Success(Lesson(parsed.title, questions));
  }
}
