/**
 * The question screen of the daily quiz (src/routes/index.tsx, the Questions
 * component): which option is chosen, whether the answer is revealed, which
 * question is current, the shared count of correct answers and the shared
 * "show results" flag, and the two click handlers that change them.
 */
module Quiz {
  import opened Wrappers
  import Streak

  /**
   * One question of the day's quiz. The option keys index the option texts;
   * `correctAnswer` is a free string that need not be one of the keys.
   */
  datatype Question = Question(options: map<string, string>, correctAnswer: string)

  /** How an option button is drawn: default border, primary, success or error colours. */
  datatype OptionStyle = Neutral | Chosen | Correct | Wrong

  /** The text of the primary button. */
  datatype Label = Submit | Next | SeeResults

  /** How the primary button is drawn: greyed out with a not-allowed cursor, primary or success. */
  datatype ButtonLook = Greyed | Primary | Success

  /**
   * getOptionStyle for option `key` of question `q`. Before the reveal only the
   * chosen key stands out; after it the correct key is green, a chosen key that
   * is not the correct one is red, and every other key is plain.
   */
  function StyleOf(q: Question, selected: string, revealed: bool, key: string): (s: OptionStyle)
    ensures !revealed ==> (s == Chosen <==> key == selected) && (s != Chosen ==> s == Neutral)
    ensures revealed ==> s != Chosen
    ensures revealed ==> (s == Correct <==> key == q.correctAnswer)
    ensures revealed ==> (s == Wrong <==> key == selected && key != q.correctAnswer)
  {
    if revealed then
      if key == q.correctAnswer then Correct
      else if selected == key then Wrong
      else Neutral
    else if selected == key then Chosen
    else Neutral
  }

  /**
   * At most one option of a question is drawn in each highlight: one chosen
   * key before the reveal, one correct and one wrong key after it; and when
   * the correct answer is not among the keys no option turns green.
   */
  lemma AtMostOneHighlight(q: Question, selected: string, revealed: bool, k1: string, k2: string)
    ensures StyleOf(q, selected, revealed, k1) == StyleOf(q, selected, revealed, k2) != Neutral ==> k1 == k2
    ensures q.correctAnswer !in q.options && k1 in q.options ==> StyleOf(q, selected, revealed, k1) != Correct
  {
  }

  /** The primary button is enabled exactly when some option is chosen (`""` is none). */
  predicate ButtonEnabled(selected: string)
  {
    selected != ""
  }

  /**
   * getButtonStyle: greyed out with a not-allowed cursor exactly when the
   * button is disabled, otherwise success once the answer is revealed.
   */
  function LookOf(selected: string, revealed: bool): (b: ButtonLook)
    ensures b == Greyed <==> !ButtonEnabled(selected)
    ensures b == Success <==> ButtonEnabled(selected) && revealed
  {
    if selected == "" then Greyed
    else if revealed then Success
    else Primary
  }

  /**
   * The button text: "Submit" until the answer is revealed, then "See
   * Results" on the last of `count` questions and "Next" on any other.
   */
  function LabelOf(revealed: bool, index: int, count: int): (l: Label)
    ensures l == Submit <==> !revealed
    ensures l == SeeResults <==> revealed && index == count - 1
    ensures l == Next <==> revealed && index != count - 1
  {
    if revealed then
      if index == count - 1 then SeeResults else Next
    else Submit
  }

  /**
   * The number of correct answers among the submitted selections: `h[i]` is
   * the selection submitted for question `i`.
   */
  function Score(qs: seq<Question>, h: seq<string>): (r: int)
    requires |h| <= |qs|
    ensures 0 <= r <= |h|
  {
    if h == [] then 0
    else
      var k := |h| - 1;
      Score(qs, h[..k]) + (if h[k] == qs[k].correctAnswer then 1 else 0)
  }

  /** The positions whose submitted selection is the correct answer. */
  ghost function Matches(qs: seq<Question>, h: seq<string>): set<int>
    requires |h| <= |qs|
  {
    set i | 0 <= i < |h| && h[i] == qs[i].correctAnswer
  }

  /** Score counts exactly the positions answered correctly. */
  lemma {:induction false} ScoreCountsMatches(qs: seq<Question>, h: seq<string>)
    requires |h| <= |qs|
    ensures Score(qs, h) == |Matches(qs, h)|
  {
    if h == [] {
      assert Matches(qs, h) == {};
    } else {
      var k := |h| - 1;
      var h' := h[..k];
      ScoreCountsMatches(qs, h');
      assert forall i | 0 <= i < k :: h'[i] == h[i];
      if h[k] == qs[k].correctAnswer {
        assert Matches(qs, h) == Matches(qs, h') + {k};
      } else {
        assert Matches(qs, h) == Matches(qs, h');
      }
    }
  }

  /** Submitting one more selection adds one to the score exactly when it is correct. */
  lemma ScoreAppend(qs: seq<Question>, h: seq<string>, a: string)
    requires |h| < |qs|
    ensures Score(qs, h + [a]) == Score(qs, h) + (if a == qs[|h|].correctAnswer then 1 else 0)
  {
  }

  /**
   * The state of one quiz session. `correctAnswers` and `showResults` are the
   * signals the page shares with the question screen; the rest are the
   * screen's own. `submitted` is the history of submitted selections, one per
   * revealed question.
   */
  class Session {
    const questions: seq<Question>
    var index: int
    var selected: string
    var revealed: bool
    var correctAnswers: int
    var showResults: bool
    ghost var submitted: seq<string>

    ghost predicate Valid()
      reads this
    {
      && |questions| > 0
      && 0 <= index < |questions|
      && |submitted| == index + (if revealed then 1 else 0)
      && (revealed ==> submitted[index] == selected && ButtonEnabled(selected))
      && correctAnswers == Score(questions, submitted)
      && (showResults ==> revealed && index == |questions| - 1)
    }

    /** The page's initial signals: first question, nothing chosen, no answer counted. */
    constructor (qs: seq<Question>)
      requires |qs| > 0
      ensures Valid()
      ensures questions == qs && index == 0 && selected == "" && !revealed
      ensures correctAnswers == 0 && !showResults && submitted == []
    {
      questions := qs;
      index := 0;
      selected := "";
      revealed := false;
      correctAnswers := 0;
      showResults := false;
      submitted := [];
    }

    /**
     * A click on the option with key `key` of the current question. Option
     * buttons are disabled once the answer is revealed, so such a click is
     * dropped and the selection stays as it was. The question screen is only
     * on the page while the results are hidden.
     */
    method ChooseOption(key: string)
      requires Valid() && !showResults
      requires key in questions[index].options
      modifies this
      ensures Valid()
      ensures selected == if old(revealed) then old(selected) else key
      ensures index == old(index) && revealed == old(revealed)
      ensures correctAnswers == old(correctAnswers) && showResults == old(showResults)
      ensures submitted == old(submitted)
    {
      if revealed {
        return;
      }
      selected := key;
    }

    /**
     * A click on the primary button at instant `now`, with `storage` the
     * browser storage. A disabled button drops the click. Otherwise "Submit"
     * reveals and scores the answer, "Next" moves to the next question, and
     * "See Results" shows the results and records the play. The question
     * screen is only on the page while the results are hidden.
     */
    method PressButton(storage: Streak.Store, now: int)
      requires Valid() && !showResults
      modifies this, storage
      ensures Valid()
      ensures !ButtonEnabled(old(selected)) ==> unchanged(this) && unchanged(storage)
      ensures ButtonEnabled(old(selected)) && old(LabelOf(revealed, index, |questions|)) == Submit ==>
        && revealed
        && index == old(index) && selected == old(selected) && showResults == old(showResults)
        && correctAnswers == old(correctAnswers) + (if old(selected) == questions[index].correctAnswer then 1 else 0)
        && submitted == old(submitted) + [old(selected)]
        && unchanged(storage)
      ensures ButtonEnabled(old(selected)) && old(LabelOf(revealed, index, |questions|)) == Next ==>
        && index == old(index) + 1 && selected == "" && !revealed
        && correctAnswers == old(correctAnswers) && showResults == old(showResults)
        && submitted == old(submitted)
        && unchanged(storage)
      ensures ButtonEnabled(old(selected)) && old(LabelOf(revealed, index, |questions|)) == SeeResults ==>
        && showResults
        && index == old(index) && selected == old(selected) && revealed == old(revealed)
        && correctAnswers == old(correctAnswers) && submitted == old(submitted)
        && storage.lastDate == Streak.Recorded(old(storage.lastDate), now)
    {
      if selected == "" {
        return;
      }
      if !revealed {
        revealed := true;
        ScoreAppend(questions, submitted, selected);
        submitted := submitted + [selected];
        if selected == questions[index].correctAnswer {
          correctAnswers := correctAnswers + 1;
        }
      } else {
        if index == |questions| - 1 {
          showResults := true;
          storage.UpdateStreak(now);
          return;
        }
        index := index + 1;
        selected := "";
        revealed := false;
      }
    }

    /**
     * The count of correct answers never exceeds the number of revealed
     * questions, and so never the number of questions.
     */
    lemma ScoreBounds()
      requires Valid()
      ensures 0 <= correctAnswers <= index + (if revealed then 1 else 0) <= |questions|
    {
    }

    /**
     * After the reveal the chosen option is drawn as correct exactly when the
     * submission added one to the count, and as wrong exactly when it did not.
     */
    lemma ChosenStyleAgreesWithScore()
      requires Valid() && revealed
      ensures StyleOf(questions[index], selected, revealed, selected) == Correct <==>
        correctAnswers == Score(questions, submitted[..index]) + 1
      ensures StyleOf(questions[index], selected, revealed, selected) == Wrong <==>
        correctAnswers == Score(questions, submitted[..index])
    {
    }

    /**
     * When the results are shown every question has a submitted selection and
     * the count is the number of questions answered correctly.
     */
    lemma FinalScore()
      requires Valid() && showResults
      ensures |submitted| == |questions|
      ensures correctAnswers == |Matches(questions, submitted)|
    {
      ScoreCountsMatches(questions, submitted);
    }
  }

  /**
   * A user who picks `key` on a question that is not the last, submits it and
   * presses "Next": the count grows by one exactly when `key` is the correct
   * answer, and the next question starts with nothing chosen.
   */
  method AnswerAndAdvance(s: Session, storage: Streak.Store, key: string, now: int)
    requires s.Valid() && !s.revealed && s.index < |s.questions| - 1
    requires key in s.questions[s.index].options && key != ""
    modifies s, storage
    ensures s.Valid()
    ensures s.index == old(s.index) + 1 && !s.revealed && s.selected == "" && !s.showResults
    ensures s.correctAnswers == old(s.correctAnswers) + (if key == s.questions[old(s.index)].correctAnswer then 1 else 0)
    ensures unchanged(storage)
  {
    s.ChooseOption(key);
    s.PressButton(storage, now);
    s.PressButton(storage, now);
  }

  /**
   * Seven questions with correct answers A, A, C, A, C, C, A answered A, B, C,
   * A, B, C, A: the results screen shows 5 and the play is recorded at `now`.
   */
  method SevenQuestionRun(now: int) returns (score: int, finished: bool, stored: Option<int>)
    ensures score == 5 && finished && stored == Some(now)
  {
    var opts := map["A" := "first", "B" := "second", "C" := "third"];
    var qs := [Question(opts, "A"), Question(opts, "A"), Question(opts, "C"), Question(opts, "A"),
               Question(opts, "C"), Question(opts, "C"), Question(opts, "A")];
    var storage := new Streak.Store(None);
    var s := new Session(qs);
    AnswerAndAdvance(s, storage, "A", now);
    AnswerAndAdvance(s, storage, "B", now);
    AnswerAndAdvance(s, storage, "C", now);
    AnswerAndAdvance(s, storage, "A", now);
    AnswerAndAdvance(s, storage, "B", now);
    AnswerAndAdvance(s, storage, "C", now);
    s.ChooseOption("A"); s.PressButton(storage, now); s.PressButton(storage, now);
    score, finished, stored := s.correctAnswers, s.showResults, storage.lastDate;
  }
}
