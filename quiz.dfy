/** The program's state and its `main` flow. The three globals of the
    program (the `questions` array of 50 and the counters `totalQuestions`
    and `correctAnswers`) are the fields of one `QuizState` object, which
    `loadQuestions`, `checkAnswer` and the quiz loop update in place. */
module Quiz {
  import opened CText
  import opened QuestionFile
  import opened AnswerInput
  import opened Scoring
  import opened Rating

  /** What the results panel shows. */
  datatype Report = Report(total: nat, correct: nat, percentage: real, rating: char)

  datatype Outcome = LoadFailed | Completed(report: Report)

  class QuizState {
    const questions: array<Question>
    var totalQuestions: nat
    var correctAnswers: nat

    ghost predicate Valid()
      reads this
    {
      questions.Length == CAPACITY && totalQuestions <= CAPACITY
    }

    /** The questions the quiz runs through. */
    function Loaded(): seq<Question>
      reads this, questions
      requires Valid()
    {
      questions[..totalQuestions]
    }

    /** The globals as the program starts: both counters zero. */
    constructor ()
      ensures Valid() && fresh(questions)
      ensures totalQuestions == 0 && correctAnswers == 0
    {
      questions := new Question[CAPACITY];
      totalQuestions := 0;
      correctAnswers := 0;
    }

    /** `loadQuestions`: fills the array from the file and sets
        `totalQuestions` to the number of records stored. An unreadable file
        loads nothing and leaves `totalQuestions` as it was. The slot after
        the last record may hold the fields of a record cut short. */
    method LoadQuestions(file: File) returns (count: nat)
      requires Valid()
      modifies this`totalQuestions, questions
      ensures Valid()
      ensures file.Unreadable? ==> count == 0 && totalQuestions == old(totalQuestions)
      ensures file.Unreadable? ==> questions[..] == old(questions[..])
      ensures file.Lines? ==> count == totalQuestions && Loaded() == Load(file.lines)
      ensures forall k :: count < k < CAPACITY ==> questions[k] == old(questions[k])
    {
      if file.Unreadable? {
        return 0;
      }
      var lines := file.lines;
      var i := 0;
      count := 0;
      ghost var loaded: seq<Question> := [];
      ghost var original := questions[..];
      assert lines[i..] == lines;
      while i < |lines| && count < CAPACITY
        invariant 0 <= i <= |lines| && count <= CAPACITY
        invariant |loaded| == count
        invariant forall k :: 0 <= k < count ==> questions[k] == loaded[k]
        invariant loaded + Parse(lines[i..], CAPACITY - count) == Load(lines)
        invariant forall k :: count <= k < CAPACITY ==> questions[k] == original[k]
      {
        var stop;
        i, count, stop, loaded := LoadPass(lines, i, count, loaded);
        if stop {
          assert loaded + [] == loaded;
          break;
        }
      }
      assert questions[..count] == loaded;
      totalQuestions := count;
    }

    /** One pass of the `loadQuestions` loop from the line at `i`, with
        `count` records stored so far: a blank or comment line is passed
        over; any other line starts a record, which is stored in slot
        `count` when all six of its lines are there and otherwise ends the
        loading. */
    method LoadPass(lines: seq<Line>, i: nat, count: nat, ghost loaded: seq<Question>)
      returns (next: nat, newCount: nat, stop: bool, ghost newLoaded: seq<Question>)
      requires questions.Length == CAPACITY && i < |lines| && count < CAPACITY
      requires |loaded| == count && forall k :: 0 <= k < count ==> questions[k] == loaded[k]
      modifies questions
      ensures next <= |lines| && count <= newCount <= CAPACITY && (!stop ==> i < next)
      ensures |newLoaded| == newCount && forall k :: 0 <= k < newCount ==> questions[k] == newLoaded[k]
      ensures forall k :: newCount < k < CAPACITY ==> questions[k] == old(questions[k])
      ensures stop ==> newCount == count && newLoaded == loaded && Parse(lines[i..], CAPACITY - count) == []
      ensures !stop ==> forall k :: newCount <= k < CAPACITY ==> questions[k] == old(questions[k])
      ensures !stop ==> newLoaded + Parse(lines[next..], CAPACITY - newCount)
                        == loaded + Parse(lines[i..], CAPACITY - count)
    {
      if IsSkipLine(lines[i]) {
        ParseSkip(lines, i, CAPACITY - count);
        return i + 1, count, false, loaded;
      }
      var complete;
      next, complete := ReadRecord(lines, i, count);
      if !complete {
        ParseCut(lines, i, CAPACITY - count);
        return next, count, true, loaded;
      }
      ParseRecord(lines, i, CAPACITY - count);
      newLoaded := loaded + [questions[count]];
      newCount := count + 1;
      stop := false;
      ghost var after := Parse(lines[next..], CAPACITY - newCount);
      assert newLoaded + after == loaded + ([questions[count]] + after);
    }

    /** One pass of the `loadQuestions` loop from a line that starts a
        record: the six lines are copied field by field into slot `count`,
        stopping as soon as the file ends. Only that slot changes. */
    method ReadRecord(lines: seq<Line>, start: nat, count: nat) returns (next: nat, complete: bool)
      requires questions.Length == CAPACITY && start < |lines| && count < CAPACITY
      modifies questions
      ensures complete <==> start + 6 <= |lines|
      ensures complete ==> next == start + 6 && questions[count] == RecordOf(lines[start..next])
      ensures !complete ==> next == |lines|
      ensures !complete ==> PartialRecord(old(questions[count]), lines[start..]) == questions[count]
      ensures forall k :: 0 <= k < CAPACITY && k != count ==> questions[k] == old(questions[k])
    {
      next := start;
      questions[count] := questions[count].(question := StripNewline(lines[next]));
      next := next + 1;
      if next == |lines| { return next, false; }
      questions[count] := questions[count].(optionA := StripNewline(lines[next]));
      next := next + 1;
      if next == |lines| { return next, false; }
      questions[count] := questions[count].(optionB := StripNewline(lines[next]));
      next := next + 1;
      if next == |lines| { return next, false; }
      questions[count] := questions[count].(optionC := StripNewline(lines[next]));
      next := next + 1;
      if next == |lines| { return next, false; }
      questions[count] := questions[count].(optionD := StripNewline(lines[next]));
      next := next + 1;
      if next == |lines| { return next, false; }
      questions[count] := questions[count].(correctAnswer := ToLower(FirstChar(lines[next])));
      next := next + 1;
      complete := true;
    }

    /** `checkAnswer`: one more point exactly when the answer equals the
        stored one. */
    method CheckAnswer(userAnswer: char, questionNum: nat)
      requires questionNum < questions.Length
      modifies this`correctAnswers
      ensures userAnswer == questions[questionNum].correctAnswer ==>
                correctAnswers == old(correctAnswers) + 1
      ensures userAnswer != questions[questionNum].correctAnswer ==>
                correctAnswers == old(correctAnswers)
      ensures correctAnswers == old(correctAnswers) + Hit(questions[questionNum], userAnswer)
    {
      if userAnswer == questions[questionNum].correctAnswer {
        correctAnswers := correctAnswers + 1;
      }
    }

    /** The quiz loop of `main`: every loaded question once, in order, each
        answer read with `getValidInput` from what the earlier questions
        left of standard input and scored with `checkAnswer`. */
    method RunQuiz(input: seq<ReadResult>)
      requires Valid()
      modifies this`correctAnswers
      ensures Valid()
      ensures correctAnswers == old(correctAnswers) + Score(Loaded(), SessionAnswers(totalQuestions, input))
      ensures old(correctAnswers) <= correctAnswers <= old(correctAnswers) + totalQuestions
    {
      var i := 0;
      var stream := input;
      ghost var qs := Loaded();
      while i < totalQuestions
        invariant 0 <= i <= totalQuestions
        invariant stream == InputAfter(i, input)
        invariant correctAnswers == old(correctAnswers) + Score(qs[..i], SessionAnswers(i, input))
      {
        var answer, used := GetValidInput(stream);
        CheckAnswer(answer, i);
        SessionStep(i, input);
        ScoreStep(qs, SessionAnswers(i, input), answer);
        stream := Rest(stream, used);
        i := i + 1;
      }
      assert qs[..totalQuestions] == qs;
    }

    /** The figures of `displayResults`. It divides by `totalQuestions`,
        which `main` has made sure is not zero. */
    function Results(): (r: Report)
      reads this
      requires totalQuestions > 0
      ensures r.total == totalQuestions && r.correct == correctAnswers
      ensures r.percentage == Percentage(correctAnswers, totalQuestions)
      ensures r.percentage * totalQuestions as real == correctAnswers as real * 100.0
      ensures r.rating == IntegerRating(correctAnswers, totalQuestions)
    {
      var p := Percentage(correctAnswers, totalQuestions);
      RatingOfPercentage(correctAnswers, totalQuestions);
      Report(totalQuestions, correctAnswers, p, GetPerformanceRating(p))
    }
  }

  /** `main`: load the questions; stop with status 1 when none were
      loaded; otherwise run the quiz and report the results with status 0.
      The zero count is checked before `displayResults` divides by it. */
  method RunProgram(file: File, input: seq<ReadResult>) returns (status: int, outcome: Outcome)
    ensures status == (if outcome.LoadFailed? then 1 else 0)
    ensures outcome.LoadFailed? <==> (file.Unreadable? || Load(file.lines) == [])
    ensures outcome.Completed? ==>
      var qs := Load(file.lines);
      var r := outcome.report;
      1 <= r.total == |qs| <= CAPACITY &&
      r.correct == Score(qs, SessionAnswers(|qs|, input)) <= r.total &&
      r.percentage == Percentage(r.correct, r.total) &&
      r.rating == IntegerRating(r.correct, r.total)
  {
    var quiz := new QuizState();
    var loaded := quiz.LoadQuestions(file);
    if loaded == 0 {
      return 1, LoadFailed;
    }
    quiz.RunQuiz(input);
    return 0, Completed(quiz.Results());
  }

  /** A session in which every answer given equals the stored one rates
      Excellent. */
  lemma PerfectSessionIsExcellent(qs: seq<Question>, input: seq<ReadResult>)
    requires qs != []
    requires forall i :: 0 <= i < |qs| ==> SessionAnswers(|qs|, input)[i] == qs[i].correctAnswer
    ensures Score(qs, SessionAnswers(|qs|, input)) == |qs|
    ensures IntegerRating(Score(qs, SessionAnswers(|qs|, input)), |qs|) == EXCELLENT
  {
    AllMatchedScoresAll(qs, SessionAnswers(|qs|, input));
  }
}
