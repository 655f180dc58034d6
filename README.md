# Quiz application: verified model

A console quiz written in C (`quiz.c`). The program reads multiple-choice
questions from `questions.txt` into a fixed array of 50 records. It then asks
each question in turn, reads an answer from standard input with up to three
attempts, counts the correct answers, and reports a percentage and a rating
(Excellent, Good or Needs Improvement). If no question could be loaded, it
exits with status 1 before any quiz runs.

The model follows the program's structure:

- `CText` (`text.dfy`) models the three C string operations the program relies on:
  - `line[0]` of a NUL-terminated buffer
  - `tolower` in the "C" locale
  - cutting a line at its first newline with `strcspn`
- `QuestionFile` (`question_file.dfy`) holds the question file and the records, as values.
  - `Parse`/`Load` state what `loadQuestions` stores from a list of lines.
  - `Serialize` writes records back as lines. It is the partner of `Parse`, and the round-trip lemmas connect the two.
- `AnswerInput` (`answer_input.dfy`) models `getValidInput`.
  - The method is a `while` loop over attempts.
  - It is specified by the function `Acquire`.
  - `SessionAnswers` gives the answers of a whole session, each read from what the earlier questions left of standard input.
- `Scoring` (`scoring.dfy`) holds the score as a function of questions and answers, with a counting characterisation.
- `Rating` (`rating.dfy`) models `getPerformanceRating` on the exact percentage.
  - It also gives the exact integer form of the rating.
- `Quiz` (`quiz.dfy`) models the program's globals as the fields of one object.
  - Those globals are the `questions` array of 50 and the counters `totalQuestions` and `correctAnswers`.
  - The object is a class `QuizState`, which `LoadQuestions`, `CheckAnswer` and the quiz loop `RunQuiz` update in place.
  - `RunProgram` models `main`: the zero-count guard, the exit status and the results.

Inputs are values:

- The question file is `Unreadable` (when `fopen` fails) or the list of lines `fgets` returns. Each line keeps its trailing `'\n'` when it has one.
- Standard input is the list of results of successive `fgets` calls, each either end-of-input or a string.
  - A read past the end of that list is end-of-input, because a closed stream keeps returning it.

## Model

| member | source | states |
|---|---|---|
| CText.ToLower | quiz.c:111 | `tolower`: the result is never an upper-case letter; non-upper characters are unchanged; 'A'..'Z' map 32 code points up |
| CText.StripNewlineCuts | quiz.c:93 | the cut line is a prefix of the line with no newline in it, and the line continues (if at all) with a newline |
| CText.StripNewlineOfLine | quiz.c:93 | cutting a newline-free text followed by a newline and anything gives the text back |
| QuestionFile.Parse | quiz.c:87-113 | never more records than the slots left |
| QuestionFile.Load | quiz.c:87 | at most 50 records are stored |
| QuestionFile.ParseSkip | quiz.c:89-91 | a blank or `#` line where a record would begin takes no slot and is passed over |
| QuestionFile.ParseCut | quiz.c:97-110 | a started record with fewer than six lines left stores nothing more and ends the loading |
| QuestionFile.ParseRecord | quiz.c:93-112 | six lines from a non-skip line give one record, followed by what the rest of the file gives with one slot fewer |
| QuestionFile.ParsedRecordCut | quiz.c:93-111 | every stored record has newline-free text fields and an answer that is not an upper-case letter |
| QuestionFile.RecordLines | quiz.c:95-111 | a question written as a record takes exactly six lines |
| QuestionFile.Serialize | quiz.c:87-113 | records written back as a file take six lines each |
| QuestionFile.RecordOfRecordLines | quiz.c:93-111 | reading the six lines written for a well-formed question gives that question back |
| QuestionFile.ParseRecordStep | quiz.c:93-112 | a well-formed record at the head of the file is stored first, then the rest is parsed with one slot fewer |
| QuestionFile.ParseSerialized | quiz.c:87-113 | well-formed records before any further lines come back in file order, and the further lines are parsed with the slots left |
| QuestionFile.ParseSerializedFull | quiz.c:87 | with fewer slots than records, exactly the first records that fit are stored and nothing after them |
| QuestionFile.LoadSerialized | quiz.c:87-113 | round trip: a file of at most 50 well-formed records loads exactly those records, in order |
| QuestionFile.LoadKeepsFirstFifty | quiz.c:87 | of more than 50 records only the first 50 are stored |
| QuestionFile.ShortTailLoadsNothing | quiz.c:97-110 | fewer than six lines never make a record |
| QuestionFile.TruncatedRecordDropped | quiz.c:97-112 | a record cut short at end of file is dropped; the count is the number of complete records before it |
| QuestionFile.SeparatorsSkipped | quiz.c:89-91 | any run of blank and `#` lines where a record would begin changes nothing |
| QuestionFile.SkipTestOnlyOnFirstLine | quiz.c:97-111 | inside a record a `#` line and a blank line become options, and an answer outside a..d is stored lower-cased |
| AnswerInput.Accept | quiz.c:150-160 | a read is accepted exactly when it is not end-of-input and its lower-cased first character is one of a..d |
| AnswerInput.Acquire | quiz.c:147-167 | the answer is one of a..d, and the number of reads used is between the attempt number and 3 |
| AnswerInput.AcquireFirstAccepted | quiz.c:147-167 | the answer comes from the first accepted read and every earlier read was refused; if all three are refused, the answer is 'a' after three reads |
| AnswerInput.GetValidInput | quiz.c:141-168 | the loop returns what `Acquire` specifies: an answer in a..d after 1 to 3 reads |
| AnswerInput.SessionAnswers | quiz.c:52-58 | one answer per question, each one of a..d |
| AnswerInput.CanonicalizationExamples | quiz.c:156-158 | upper case and trailing text do not matter; another letter, an empty line, a leading space and end-of-input are refused |
| AnswerInput.FallbackAfterThreeRefusals | quiz.c:165-167 | three refused reads give 'a' and leave the fourth read unread |
| Scoring.Score | quiz.c:52-64 | the score never exceeds the number of questions |
| Scoring.ScoreStep | quiz.c:58-60 | answering one more question adds its hit to the score |
| Scoring.ScoreCountsMatches | quiz.c:176-185 | the score is the number of positions where the answer matched the stored one |
| Scoring.AllMatchedScoresAll | quiz.c:176-185 | answering every question with its stored answer scores every question |
| Scoring.ScoreAtMostAnswerable | quiz.c:111 | since given answers are in a..d, a question whose stored answer is anything else never scores |
| Rating.Percentage | quiz.c:211 | the exact percentage times the total is the correct count times 100 |
| Rating.GetPerformanceRating | quiz.c:192-200 | the rating is one of 'E', 'G', 'N' |
| Rating.RatingMonotone | quiz.c:192-200 | a higher percentage never gives a lower rating |
| Rating.RatingOfPercentage | quiz.c:192-211 | the rating of the percentage is the integer rating: E iff 100c >= 80t, G iff 80t > 100c >= 60t, N otherwise |
| Rating.RatingBoundaries | quiz.c:192-200 | 80 gives E, 79.9 and 60 give G, 59.9 gives N; 5 of 5 is 100% and E, 2 of 4 is 50% and N |
| Quiz.QuizState.constructor | quiz.c:19-21 | the array holds 50 slots and both counters start at zero |
| Quiz.QuizState.LoadQuestions | quiz.c:76-118 | an unreadable file returns 0 and changes nothing; otherwise `totalQuestions` is the returned count and the stored prefix is `Load` of the lines; slots after the count keep their old contents |
| Quiz.QuizState.LoadPass | quiz.c:87-113 | one loop pass keeps the invariant that what is stored so far, followed by what the rest of the file gives, is `Load` of the file |
| Quiz.QuizState.ReadRecord | quiz.c:93-112 | a complete record is stored in slot `count` as `RecordOf` its six lines; it is complete exactly when six lines are left; a record cut short leaves in slot `count` the cut text fields whose lines exist and keeps the slot's other fields (`PartialRecord`); no other slot changes |
| Quiz.QuizState.CheckAnswer | quiz.c:176-185 | `correctAnswers` goes up by one exactly when the answer matches, and is otherwise unchanged; the increase is that question's `Hit` |
| Quiz.QuizState.RunQuiz | quiz.c:52-64 | `correctAnswers` grows by the score of the session's answers against the loaded questions, never decreasing and by at most `totalQuestions`; the state stays valid |
| Quiz.QuizState.Results | quiz.c:207-213 | with at least one question, the report carries both counters, the exact percentage (times the total it is the correct count times 100) and the integer rating |
| Quiz.RunProgram | quiz.c:35-69 | status 1 exactly when the file is unreadable or loads no record; otherwise status 0 with 1 to 50 questions, the session's score, its exact percentage and its rating, and no division by zero |
| Quiz.PerfectSessionIsExcellent | quiz.c:52-64 | a session whose every answer matches scores every question and rates Excellent |

## Left out

- Console output (`printf`) is not modelled: the banner, the question display, the correct/incorrect notices and the results panel are presentation only.
- `system("clear || cls")` is not modelled: it affects only the terminal.
- The `getchar()` pauses before the quiz and after each question are not modelled. Standard input is modelled as the `fgets` results `getValidInput` sees, so the character each pause consumes is not represented.
- `fopen`/`fclose` are modelled only as whether the file can be read (`File.Unreadable`), and the file's contents as the lines `fgets` returns.
- The 256-byte and 10-byte `fgets` buffers are not modelled. They split over-long lines into several reads; the model works with whole reads.
- Overflow of the `strcpy` copies into the 100-byte option fields is not modelled. It is undefined behaviour in C. (The question copy cannot overflow: a line read into the 256-byte buffer fits the 256-byte question field.)
- Embedded NUL characters and locales other than "C" are not modelled. Neither is `tolower` on negative `char` values.
- The extra line the loop condition reads once 50 records are stored is not modelled. Nothing is done with that line.
- Quiz.QuizState.Results: the percentage is exact, not a C `float`, and its `%.1f` rendering is not modelled. With at most 50 questions, the exact value is never within rounding distance of 80 or 60 unless it equals them, so the integer rating stands for the rating of the rounded value.
- Quiz.QuizState.LoadQuestions: a record cut short leaves its first fields in slot `count`. The model writes them, as the program does, and `ReadRecord` states them, but the contract of `LoadQuestions` only says that slots after `count` are unchanged.
- Quiz.RunProgram: a missing file and a file with no complete record give the same outcome, `LoadFailed`, with status 1. The program returns 1 for both, and `main` prints the same message for both; only a missing file also gets `loadQuestions`' own "Cannot open file" message first. The model follows the program rather than treating them as two distinct errors, and console output is not modelled.
