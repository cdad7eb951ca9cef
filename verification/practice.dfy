/** The practice page's multiple-choice quiz: how a question is put together,
    the answer handler, the score and total it keeps, the accuracy shown and the
    three achievement badges. The random draws are left open. */
module Practice {
  import opened Text
  import opened Characters
  import Utils

  /** Which side of an entry is asked for: `latin` shows the glyph and asks for
      the Latin key, `batak` the other way round. */
  datatype QuizMode = LatinQuiz | BatakQuiz

  datatype Question = Question(id: string, batak: string, correct: string, options: seq<string>)

  /** The page's quiz state. The selected answer is kept as typed; the question
      is absent before the first one is drawn. */
  datatype PracticeState = PracticeState(
    currentQuestion: Option<Question>,
    selectedAnswer: string,
    isAnswered: bool,
    score: int,
    totalQuestions: int,
    showResult: bool,
    quizMode: QuizMode)

  // ---------------------------------------------------------------------------
  // generateQuestion

  /** The side of an entry that is the answer in this mode. */
  function Answer(mode: QuizMode, c: BatakCharacter): string {
    if mode == LatinQuiz then c.latinChar else c.batakChar
  }

  /** The side of an entry that is shown as the prompt in this mode. */
  function Prompt(mode: QuizMode, c: BatakCharacter): string {
    if mode == LatinQuiz then c.batakChar else c.latinChar
  }

  /** The question for entry `target` with the option entries in the order given. */
  function QuestionFor(mode: QuizMode, target: BatakCharacter, arranged: seq<BatakCharacter>): (q: Question)
    ensures q.id == target.id && q.batak == Prompt(mode, target) && q.correct == Answer(mode, target)
    ensures |q.options| == |arranged|
    ensures forall k :: 0 <= k < |arranged| ==> q.options[k] == Answer(mode, arranged[k])
  {
    Question(target.id, Prompt(mode, target), Answer(mode, target), AnswersOf(mode, arranged))
  }

  function AnswersOf(mode: QuizMode, cs: seq<BatakCharacter>): (r: seq<string>)
    ensures |r| == |cs|
    ensures forall k :: 0 <= k < |cs| ==> r[k] == Answer(mode, cs[k])
    decreases |cs|
  {
    if cs == [] then [] else [Answer(mode, cs[0])] + AnswersOf(mode, cs[1..])
  }

  /** The first `n` entries of a rearrangement of the entries with an id other than
      `target`'s are table entries with such an id. */
  lemma DistractorsDiffer(chars: seq<BatakCharacter>, target: BatakCharacter, mixed: seq<BatakCharacter>, n: int)
    requires multiset(mixed) == multiset(Filter(chars, (c: BatakCharacter) => c.id != target.id))
    requires 0 <= n <= |mixed|
    ensures forall k :: 0 <= k < |mixed[..n]| ==> mixed[..n][k] in chars && mixed[..n][k].id != target.id
  {
    var others := Filter(chars, (c: BatakCharacter) => c.id != target.id);
    FilterDrawsFrom(chars, (c: BatakCharacter) => c.id != target.id);
    forall k | 0 <= k < |mixed[..n]| ensures mixed[..n][k] in chars && mixed[..n][k].id != target.id {
      assert mixed[..n][k] == mixed[k];
      assert mixed[k] in multiset(others);
      var j :| 0 <= j < |others| && others[j] == mixed[k];
    }
  }

  /** The target is among the arranged entries, so its answer is among the options. */
  lemma CorrectAmongOptions(mode: QuizMode, target: BatakCharacter, arranged: seq<BatakCharacter>)
    requires target in multiset(arranged)
    ensures QuestionFor(mode, target, arranged).correct in QuestionFor(mode, target, arranged).options
  {
    var k :| 0 <= k < |arranged| && arranged[k] == target;
    assert QuestionFor(mode, target, arranged).options[k] == Answer(mode, target);
  }

  /** `generateQuestion()` over a list of entries: a target drawn at random, up to
      three other entries with a different id drawn at random as distractors, and
      the four shuffled together. The outputs besides the question are the draws. */
  method GenerateFrom(mode: QuizMode, chars: seq<BatakCharacter>)
    returns (q: Question, target: BatakCharacter, distractors: seq<BatakCharacter>, arranged: seq<BatakCharacter>)
    requires |chars| > 0
    ensures target in chars
    ensures |distractors| <= 3
    ensures forall k :: 0 <= k < |distractors| ==> distractors[k] in chars && distractors[k].id != target.id
    ensures multiset(arranged) == multiset([target] + distractors)
    ensures q == QuestionFor(mode, target, arranged) && |q.options| == |arranged|
    ensures q.correct in q.options && 1 <= |q.options| <= 4
  {
    var pick :| 0 <= pick < |chars|;
    target := chars[pick];
    var others := Filter(chars, (c: BatakCharacter) => c.id != target.id);
    var mixed, mixSwaps := Utils.ShuffleArray(others);
    var n := if |mixed| < 3 then |mixed| else 3;
    DistractorsDiffer(chars, target, mixed, n);
    distractors := mixed[..n];
    var arrangeSwaps;
    arranged, arrangeSwaps := Utils.ShuffleArray([target] + distractors);
    q := QuestionFor(mode, target, arranged);
    assert target in multiset([target] + distractors);
    CorrectAmongOptions(mode, target, arranged);
  }

  /** `generateQuestion()` over the reference table. */
  method GenerateQuestion(mode: QuizMode)
    returns (q: Question, target: BatakCharacter, distractors: seq<BatakCharacter>, arranged: seq<BatakCharacter>)
    ensures target in Table && q.id == target.id && q.correct == Answer(mode, target)
    ensures |distractors| <= 3
    ensures forall k :: 0 <= k < |distractors| ==> distractors[k] in Table && distractors[k].id != q.id
    ensures multiset(arranged) == multiset([target] + distractors)
    ensures q.correct in q.options && 1 <= |q.options| <= 4 && |q.options| == |arranged|
    ensures forall k :: 0 <= k < |arranged| ==> q.options[k] == Answer(mode, arranged[k])
  {
    TableKeysDistinct();
    q, target, distractors, arranged := GenerateFrom(mode, Table);
  }

  /** An option other than the answer can still read the same: in `batak` mode
      the entries `ya` and `o` both show U+1BE8, though their ids differ. */
  lemma DuplicateOptions(rest: seq<BatakCharacter>)
    ensures var q := QuestionFor(BatakQuiz, RowYa, [RowYa, RowO] + rest);
            && RowO.id != RowYa.id
            && q.options[0] == q.options[1] == q.correct
  {
  }

  // ---------------------------------------------------------------------------
  // The handlers

  const Initial := PracticeState(None, "", false, 0, 0, false, LatinQuiz)

  /** `handleAnswer(answer)`: once per question, record the answer, count the
      question, and count it right when the answer equals the correct one. With
      no question `currentQuestion?.correct` is `undefined` and nothing is right. */
  function HandleAnswer(s: PracticeState, answer: string): (s': PracticeState)
    ensures s.isAnswered ==> s' == s
    ensures !s.isAnswered ==>
              && s'.isAnswered && s'.selectedAnswer == answer
              && s'.totalQuestions == s.totalQuestions + 1
              && (s'.score == s.score + 1 <==> s.currentQuestion.Some? && answer == s.currentQuestion.value.correct)
              && (s'.score == s.score || s'.score == s.score + 1)
              && s'.currentQuestion == s.currentQuestion && s'.showResult == s.showResult
              && s'.quizMode == s.quizMode
  {
    if s.isAnswered then s
    else
      var right := s.currentQuestion.Some? && answer == s.currentQuestion.value.correct;
      s.(selectedAnswer := answer, isAnswered := true, totalQuestions := s.totalQuestions + 1,
         score := if right then s.score + 1 else s.score)
  }

  /** The timer set by `handleAnswer` firing: the result is shown. */
  function ShowResult(s: PracticeState): (s': PracticeState)
    ensures s'.showResult && s' == s.(showResult := true)
  {
    s.(showResult := true)
  }

  /** `startNewQuestion()` with the freshly generated question `q`. */
  function StartNewQuestion(s: PracticeState, q: Question): (s': PracticeState)
    ensures s'.currentQuestion == Some(q) && s'.selectedAnswer == "" && !s'.isAnswered && !s'.showResult
    ensures s'.score == s.score && s'.totalQuestions == s.totalQuestions && s'.quizMode == s.quizMode
  {
    s.(currentQuestion := Some(q), selectedAnswer := "", isAnswered := false, showResult := false)
  }

  /** `resetQuiz()`: score and total back to zero, then a new question. */
  function ResetQuiz(s: PracticeState, q: Question): (s': PracticeState)
    ensures s'.score == 0 && s'.totalQuestions == 0
    ensures s'.currentQuestion == Some(q) && !s'.isAnswered && !s'.showResult && s'.quizMode == s.quizMode
  {
    StartNewQuestion(s.(score := 0, totalQuestions := 0), q)
  }

  /** The score never exceeds the number of questions answered. */
  predicate Valid(s: PracticeState) {
    0 <= s.score <= s.totalQuestions
  }

  lemma InitialValid()
    ensures Valid(Initial) && Badges(Initial) == {}
  {
  }

  /** Every handler keeps the score within the total. */
  lemma HandlersKeepValid(s: PracticeState, answer: string, q: Question)
    requires Valid(s)
    ensures Valid(HandleAnswer(s, answer))
    ensures Valid(ShowResult(s))
    ensures Valid(StartNewQuestion(s, q))
    ensures Valid(ResetQuiz(s, q))
  {
  }

  /** A second answer to the same question changes nothing. */
  lemma AnswerOnce(s: PracticeState, a: string, b: string)
    ensures HandleAnswer(HandleAnswer(s, a), b) == HandleAnswer(s, a)
  {
  }

  // ---------------------------------------------------------------------------
  // Accuracy and badges

  /** The accuracy shown: the same rounding as `calculateAccuracy`. */
  function Accuracy(s: PracticeState): int {
    Utils.CalculateAccuracy(s.score, s.totalQuestions)
  }

  /** Accuracy is a percentage, and 0 before any question is answered. */
  lemma AccuracyRange(s: PracticeState)
    requires Valid(s)
    ensures s.totalQuestions == 0 ==> Accuracy(s) == 0
    ensures 0 <= Accuracy(s) <= 100
  {
    if s.totalQuestions > 0 {
      Utils.AccuracyBounds(s.score, s.totalQuestions);
    }
  }

  datatype Badge =
    | MasterOfScript   // "Ahli Aksara"
    | DiligentPractice // "Tekun Berlatih"
    | ReliableLearner  // "Pembelajar Handal"

  /** The badges in the achievement section, which is shown only once a question
      has been answered. */
  function Badges(s: PracticeState): set<Badge> {
    if s.totalQuestions <= 0 then {}
    else
      (if Accuracy(s) >= 80 then {MasterOfScript} else {})
      + (if s.totalQuestions >= 10 then {DiligentPractice} else {})
      + (if s.score >= 5 then {ReliableLearner} else {})
  }

  /** The three thresholds, stated on score and total alone: the accuracy badge
      needs a right-answer rate of at least 79.5 percent. */
  lemma BadgeThresholds(s: PracticeState)
    requires Valid(s)
    ensures MasterOfScript in Badges(s) <==> s.totalQuestions > 0 && 200 * s.score >= 159 * s.totalQuestions
    ensures DiligentPractice in Badges(s) <==> s.totalQuestions >= 10
    ensures ReliableLearner in Badges(s) <==> s.score >= 5
  {
    if s.totalQuestions > 0 {
      Utils.AccuracyAtLeast(s.score, s.totalQuestions, 80);
    }
  }

  /** Answering never takes away the practice or learner badge; only a reset does. */
  lemma AnsweringKeepsCountBadges(s: PracticeState, answer: string, q: Question)
    requires Valid(s)
    ensures Badges(s) - {MasterOfScript} <= Badges(HandleAnswer(s, answer))
    ensures Badges(StartNewQuestion(s, q)) == Badges(s)
    ensures Badges(ResetQuiz(s, q)) == {}
  {
    BadgeThresholds(s);
    HandlersKeepValid(s, answer, q);
    BadgeThresholds(HandleAnswer(s, answer));
  }
}
