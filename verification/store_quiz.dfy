/** The application store's quiz actions and its user-progress merge. Each
    action changes only its own slice of the store; the slice is modelled here
    and the rest of the store is left alone. Clock readings are milliseconds
    passed in by the caller. */
module StoreQuiz {
  import opened Text
  import opened Characters
  import Utils

  // ---------------------------------------------------------------------------
  // Records

  /** One finished quiz. Times are milliseconds (`completedAt`) and seconds
      (`timeSpent`). */
  datatype QuizResult = QuizResult(
    id: string,
    userId: string,
    score: int,
    totalQuestions: int,
    lessonId: Option<string>,
    completedAt: int,
    timeSpent: int)

  /** A user's progress with every field optional: `Partial<UserProgress>`, and
      also what the store may hold after its unchecked cast (see
      `UpdateUserProgress`). */
  datatype Progress = Progress(
    lessonsCompleted: Option<seq<string>>,
    quizScores: Option<seq<QuizResult>>,
    writingPracticeCount: Option<int>,
    totalTimeSpent: Option<int>,
    currentLevel: Option<Utils.Level>)

  /** A `UserProgress` proper: every field present. */
  predicate Complete(p: Progress) {
    && p.lessonsCompleted.Some? && p.quizScores.Some? && p.writingPracticeCount.Some?
    && p.totalTimeSpent.Some? && p.currentLevel.Some?
  }

  const NoFields := Progress(None, None, None, None, None)

  datatype User = User(id: string, name: string, email: string, progress: Progress, createdAt: int, updatedAt: int)

  /** The quiz in progress. `startTime` is the `Date` taken at the start. */
  datatype Quiz = Quiz(questions: seq<BatakCharacter>, currentIndex: int, answers: seq<string>, startTime: Option<int>)

  /** The store fields the quiz and progress actions read and write. */
  datatype QuizSlice = QuizSlice(currentUser: Option<User>, userProgress: Option<Progress>, currentQuiz: Option<Quiz>)

  // ---------------------------------------------------------------------------
  // updateUserProgress

  /** One field of `{ ...old, ...patch }`: the patch's value when it has one. */
  function Pick<T>(prev: Option<T>, patch: Option<T>): (r: Option<T>)
    ensures patch.Some? ==> r == patch
    ensures patch.None? ==> r == prev
  {
    if patch.Some? then patch else prev
  }

  /** `{ ...old, ...patch }`. */
  function Merge(prev: Progress, patch: Progress): Progress {
    Progress(
      Pick(prev.lessonsCompleted, patch.lessonsCompleted),
      Pick(prev.quizScores, patch.quizScores),
      Pick(prev.writingPracticeCount, patch.writingPracticeCount),
      Pick(prev.totalTimeSpent, patch.totalTimeSpent),
      Pick(prev.currentLevel, patch.currentLevel))
  }

  /** `updateUserProgress(patch)`: the patch spread over the stored progress, or,
      with none stored, the patch itself cast to a full progress record. */
  function UpdateUserProgress(s: QuizSlice, patch: Progress): (s': QuizSlice)
    ensures s'.currentUser == s.currentUser && s'.currentQuiz == s.currentQuiz
    ensures s'.userProgress.Some?
    ensures s.userProgress.Some? ==> s'.userProgress.value == Merge(s.userProgress.value, patch)
    ensures s.userProgress.None? ==> s'.userProgress.value == patch
  {
    s.(userProgress := Some(if s.userProgress.Some? then Merge(s.userProgress.value, patch) else patch))
  }

  /** Every field the patch sets takes its value; every other field keeps the old one. */
  lemma MergeFields(prev: Progress, patch: Progress)
    ensures var m := Merge(prev, patch);
            && (patch.lessonsCompleted.Some? ==> m.lessonsCompleted == patch.lessonsCompleted)
            && (patch.lessonsCompleted.None? ==> m.lessonsCompleted == prev.lessonsCompleted)
            && (patch.quizScores.Some? ==> m.quizScores == patch.quizScores)
            && (patch.quizScores.None? ==> m.quizScores == prev.quizScores)
            && (patch.writingPracticeCount.Some? ==> m.writingPracticeCount == patch.writingPracticeCount)
            && (patch.writingPracticeCount.None? ==> m.writingPracticeCount == prev.writingPracticeCount)
            && (patch.totalTimeSpent.Some? ==> m.totalTimeSpent == patch.totalTimeSpent)
            && (patch.totalTimeSpent.None? ==> m.totalTimeSpent == prev.totalTimeSpent)
            && (patch.currentLevel.Some? ==> m.currentLevel == patch.currentLevel)
            && (patch.currentLevel.None? ==> m.currentLevel == prev.currentLevel)
  {
  }

  /** An empty patch leaves a stored progress as it was. */
  lemma EmptyPatchKeeps(s: QuizSlice)
    requires s.userProgress.Some?
    ensures UpdateUserProgress(s, NoFields) == s
  {
  }

  /** Applying the same patch twice is applying it once. */
  lemma UpdateIdempotent(s: QuizSlice, patch: Progress)
    ensures UpdateUserProgress(UpdateUserProgress(s, patch), patch) == UpdateUserProgress(s, patch)
  {
  }

  /** Two patches in a row are one patch: the second spread over the first. */
  lemma UpdateTwice(s: QuizSlice, p: Progress, q: Progress)
    ensures UpdateUserProgress(UpdateUserProgress(s, p), q) == UpdateUserProgress(s, Merge(p, q))
  {
  }

  /** A complete stored progress stays complete; with none stored, the result is
      complete only if the patch is. */
  lemma UpdateKeepsComplete(s: QuizSlice, patch: Progress)
    ensures s.userProgress.Some? && Complete(s.userProgress.value) ==> Complete(UpdateUserProgress(s, patch).userProgress.value)
    ensures s.userProgress.None? ==> (Complete(UpdateUserProgress(s, patch).userProgress.value) <==> Complete(patch))
  {
  }

  /** The cast is unchecked: a first update that sets one field stores a progress
      without lessons, scores or level. */
  lemma FirstPartialUpdateIncomplete(s: QuizSlice)
    requires s.userProgress.None?
    ensures !Complete(UpdateUserProgress(s, NoFields.(writingPracticeCount := Some(1))).userProgress.value)
  {
  }

  // ---------------------------------------------------------------------------
  // The quiz actions

  /** `startQuiz(characters)`: the characters in a shuffled order, the first
      question, no answers, started now. The random-comparator sort is modelled
      as an arbitrary rearrangement. */
  method StartQuiz(s: QuizSlice, characters: seq<BatakCharacter>, now: int) returns (s': QuizSlice)
    ensures s'.currentUser == s.currentUser && s'.userProgress == s.userProgress
    ensures s'.currentQuiz.Some?
    ensures var q := s'.currentQuiz.value;
            && multiset(q.questions) == multiset(characters) && |q.questions| == |characters|
            && q.currentIndex == 0 && q.answers == [] && q.startTime == Some(now)
  {
    var questions, swaps := Utils.ShuffleArray(characters);
    s' := s.(currentQuiz := Some(Quiz(questions, 0, [], Some(now))));
  }

  /** `submitQuizAnswer(answer)`: appends the answer; nothing without a quiz. */
  function SubmitQuizAnswer(s: QuizSlice, answer: string): (s': QuizSlice)
    ensures s.currentQuiz.None? ==> s' == s
    ensures s.currentQuiz.Some? ==>
              && s'.currentQuiz.Some?
              && |s'.currentQuiz.value.answers| == |s.currentQuiz.value.answers| + 1
              && s'.currentQuiz.value.answers[..|s.currentQuiz.value.answers|] == s.currentQuiz.value.answers
              && s'.currentQuiz.value == s.currentQuiz.value.(answers := s'.currentQuiz.value.answers)
              && s'.currentQuiz.value.answers[|s.currentQuiz.value.answers|] == answer
    ensures s'.currentUser == s.currentUser && s'.userProgress == s.userProgress
  {
    match s.currentQuiz
    case None => s
    case Some(q) => s.(currentQuiz := Some(q.(answers := q.answers + [answer])))
  }

  /** `nextQuizQuestion()`: moves to the next question; nothing without a quiz. */
  function NextQuizQuestion(s: QuizSlice): (s': QuizSlice)
    ensures s.currentQuiz.None? ==> s' == s
    ensures s.currentQuiz.Some? ==>
              && s'.currentQuiz.Some?
              && s'.currentQuiz.value.currentIndex == s.currentQuiz.value.currentIndex + 1
              && s'.currentQuiz.value == s.currentQuiz.value.(currentIndex := s'.currentQuiz.value.currentIndex)
    ensures s'.currentUser == s.currentUser && s'.userProgress == s.userProgress
  {
    match s.currentQuiz
    case None => s
    case Some(q) => s.(currentQuiz := Some(q.(currentIndex := q.currentIndex + 1)))
  }

  /** Answering then moving on, over a list of answers from a fresh quiz, records
      exactly that list. */
  function AnswerAll(s: QuizSlice, answers: seq<string>): QuizSlice
    decreases |answers|
  {
    if answers == [] then s
    else AnswerAll(NextQuizQuestion(SubmitQuizAnswer(s, answers[0])), answers[1..])
  }

  lemma {:induction false} AnswerAllRecords(s: QuizSlice, answers: seq<string>)
    requires s.currentQuiz.Some?
    ensures AnswerAll(s, answers).currentUser == s.currentUser
    ensures var q := s.currentQuiz.value;
            AnswerAll(s, answers).currentQuiz == Some(q.(answers := q.answers + answers, currentIndex := q.currentIndex + |answers|))
    decreases |answers|
  {
    if answers == [] {
      assert s.currentQuiz.value.answers + answers == s.currentQuiz.value.answers;
    } else {
      var q := s.currentQuiz.value;
      var s1 := NextQuizQuestion(SubmitQuizAnswer(s, answers[0]));
      var q1 := q.(answers := q.answers + [answers[0]], currentIndex := q.currentIndex + 1);
      assert s1.currentQuiz == Some(q1);
      AnswerAllRecords(s1, answers[1..]);
      assert q1.answers + answers[1..] == q.answers + answers;
    }
  }

  // ---------------------------------------------------------------------------
  // finishQuiz

  /** Question `i` was answered with its Latin key. Past the end of the answers,
      `answers[i]` is `undefined` and never equal. */
  predicate AnsweredRight(questions: seq<BatakCharacter>, answers: seq<string>, i: int)
    requires 0 <= i < |questions|
  {
    i < |answers| && answers[i] == questions[i].latinChar
  }

  /** The number of right answers among the first `n` questions. */
  function CountCorrect(questions: seq<BatakCharacter>, answers: seq<string>, n: int): (c: int)
    requires 0 <= n <= |questions|
    ensures 0 <= c <= n
    decreases n
  {
    if n == 0 then 0
    else CountCorrect(questions, answers, n - 1) + (if AnsweredRight(questions, answers, n - 1) then 1 else 0)
  }

  /** All `n` right exactly when every one of the first `n` is answered right. */
  lemma {:induction false} CountCorrectAll(questions: seq<BatakCharacter>, answers: seq<string>, n: int)
    requires 0 <= n <= |questions|
    ensures CountCorrect(questions, answers, n) == n <==> forall i :: 0 <= i < n ==> AnsweredRight(questions, answers, i)
    decreases n
  {
    if n > 0 {
      CountCorrectAll(questions, answers, n - 1);
    }
  }

  /** None right exactly when none of the first `n` is answered right. */
  lemma {:induction false} CountCorrectNone(questions: seq<BatakCharacter>, answers: seq<string>, n: int)
    requires 0 <= n <= |questions|
    ensures CountCorrect(questions, answers, n) == 0 <==> forall i :: 0 <= i < n ==> !AnsweredRight(questions, answers, i)
    decreases n
  {
    if n > 0 {
      CountCorrectNone(questions, answers, n - 1);
    }
  }

  /** Answers given after the last question do not count. */
  lemma {:induction false} CountCorrectIgnoresExtra(questions: seq<BatakCharacter>, answers: seq<string>, extra: seq<string>, n: int)
    requires 0 <= n <= |questions| <= |answers|
    ensures CountCorrect(questions, answers + extra, n) == CountCorrect(questions, answers, n)
    decreases n
  {
    if n > 0 {
      CountCorrectIgnoresExtra(questions, answers, extra, n - 1);
      assert (answers + extra)[n - 1] == answers[n - 1];
    }
  }

  /** The positions among the first `n` answered with their Latin key. */
  function RightPositions(questions: seq<BatakCharacter>, answers: seq<string>, n: int): set<int>
    requires 0 <= n <= |questions|
  {
    set i | 0 <= i < n && AnsweredRight(questions, answers, i)
  }

  /** The count is the number of positions answered right. */
  lemma {:induction false} CountCorrectIsCardinality(questions: seq<BatakCharacter>, answers: seq<string>, n: int)
    requires 0 <= n <= |questions|
    ensures CountCorrect(questions, answers, n) == |RightPositions(questions, answers, n)|
    decreases n
  {
    if n == 0 {
      assert RightPositions(questions, answers, 0) == {};
    } else {
      CountCorrectIsCardinality(questions, answers, n - 1);
      var before := RightPositions(questions, answers, n - 1);
      assert n - 1 !in before;
      if AnsweredRight(questions, answers, n - 1) {
        assert RightPositions(questions, answers, n) == before + {n - 1};
      } else {
        assert RightPositions(questions, answers, n) == before;
      }
    }
  }

  /** The score of a quiz. */
  function Score(q: Quiz): int {
    CountCorrect(q.questions, q.answers, |q.questions|)
  }

  /** `finishQuiz()`: with a quiz and a user, the result of the quiz, and the quiz
      cleared; otherwise no result and nothing changed. `now` is `Date.now()`. */
  function FinishQuiz(s: QuizSlice, now: int): (r: (Option<QuizResult>, QuizSlice))
    ensures r.0.None? <==> s.currentQuiz.None? || s.currentUser.None?
    ensures r.0.None? ==> r.1 == s
    ensures r.0.Some? ==>
              && r.1 == s.(currentQuiz := None)
              && r.0.value.userId == s.currentUser.value.id
              && r.0.value.totalQuestions == |s.currentQuiz.value.questions|
              && r.0.value.score == CountCorrect(s.currentQuiz.value.questions, s.currentQuiz.value.answers, |s.currentQuiz.value.questions|)
              && 0 <= r.0.value.score <= r.0.value.totalQuestions
              && r.0.value.completedAt == now
  {
    if s.currentQuiz.None? || s.currentUser.None? then (None, s)
    else
      var q := s.currentQuiz.value;
      var spent := if q.startTime.Some? then (now - q.startTime.value) / 1000 else 0;
      var stamp := if now >= 0 then Utils.NatToString(now) else "-" + Utils.NatToString(-now);
      var result := QuizResult("quiz_" + stamp, s.currentUser.value.id, Score(q),
                               |q.questions|, None, now, spent);
      (Some(result), s.(currentQuiz := None))
  }

  /** The score is the number of questions answered with their Latin key: full
      exactly when every one was, zero exactly when none was. */
  lemma FinishQuizScore(s: QuizSlice, now: int)
    requires s.currentQuiz.Some? && s.currentUser.Some?
    ensures var r := FinishQuiz(s, now).0.value;
            var q := s.currentQuiz.value;
            && (r.score == r.totalQuestions <==> forall i :: 0 <= i < |q.questions| ==> AnsweredRight(q.questions, q.answers, i))
            && r.score == |RightPositions(q.questions, q.answers, |q.questions|)|
            && (r.score == 0 <==> forall i :: 0 <= i < |q.questions| ==> !AnsweredRight(q.questions, q.answers, i))
  {
    var q := s.currentQuiz.value;
    CountCorrectIsCardinality(q.questions, q.answers, |q.questions|);
    CountCorrectAll(q.questions, q.answers, |q.questions|);
    CountCorrectNone(q.questions, q.answers, |q.questions|);
  }

  /** Time spent is the whole seconds since the start, rounded down (0 without a
      start time). */
  lemma FinishQuizTime(s: QuizSlice, now: int)
    requires s.currentQuiz.Some? && s.currentUser.Some?
    ensures var r := FinishQuiz(s, now).0.value;
            var q := s.currentQuiz.value;
            && (q.startTime.None? ==> r.timeSpent == 0)
            && (q.startTime.Some? ==> r.timeSpent * 1000 <= now - q.startTime.value < r.timeSpent * 1000 + 1000)
  {
  }

  /** Answering every question of a fresh quiz with its Latin key scores them all. */
  lemma PerfectRun(s: QuizSlice, now: int)
    requires s.currentUser.Some? && s.currentQuiz.Some? && s.currentQuiz.value.answers == []
    ensures var q := s.currentQuiz.value;
            var keys := seq(|q.questions|, i requires 0 <= i < |q.questions| => q.questions[i].latinChar);
            var r := FinishQuiz(AnswerAll(s, keys), now).0;
            r.Some? && r.value.score == r.value.totalQuestions == |q.questions|
  {
    var q := s.currentQuiz.value;
    var keys := seq(|q.questions|, i requires 0 <= i < |q.questions| => q.questions[i].latinChar);
    AnswerAllRecords(s, keys);
    var done := AnswerAll(s, keys);
    assert done.currentQuiz.value.answers == keys;
    FinishQuizScore(done, now);
  }
}
