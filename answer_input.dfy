/** `getValidInput`: reading one answer from the user, with up to three
    attempts and a fallback to 'a'. Standard input is the sequence of what
    its successive `fgets` calls return; a read past the end of that
    sequence is end-of-input, as a closed stream keeps returning it. */
module AnswerInput {
  import opened CText

  datatype ReadResult = EndOfInput | Got(text: string)

  const MAX_ATTEMPTS: nat := 3

  /** The answer given when every attempt failed. */
  const FALLBACK: char := 'a'

  predicate IsChoice(c: char) {
    c == 'a' || c == 'b' || c == 'c' || c == 'd'
  }

  datatype Option<T> = None | Some(value: T)

  /** What one read contributes: the lower-cased first character when it is
      one of a..d, nothing for end-of-input or any other character. */
  function Accept(r: ReadResult): (o: Option<char>)
    ensures o.Some? ==> IsChoice(o.value)
    ensures o.Some? <==> r.Got? && IsChoice(ToLower(FirstChar(r.text)))
  {
    if r.EndOfInput? then None
    else
      var answer := ToLower(FirstChar(r.text));
      if IsChoice(answer) then Some(answer) else None
  }

  function ReadAt(input: seq<ReadResult>, k: nat): ReadResult {
    if k < |input| then input[k] else EndOfInput
  }

  /** The answer finally returned and how many reads were made for it. */
  datatype Acquired = Acquired(answer: char, used: nat)

  /** The outcome of the attempts from number `attempt` on (counting from
      0). */
  function Acquire(input: seq<ReadResult>, attempt: nat): (r: Acquired)
    requires attempt <= MAX_ATTEMPTS
    ensures IsChoice(r.answer)
    ensures attempt <= r.used <= MAX_ATTEMPTS
    ensures attempt < MAX_ATTEMPTS ==> attempt < r.used
    decreases MAX_ATTEMPTS - attempt
  {
    if attempt == MAX_ATTEMPTS then Acquired(FALLBACK, MAX_ATTEMPTS)
    else match Accept(ReadAt(input, attempt))
      case Some(c) => Acquired(c, attempt + 1)
      case None => Acquire(input, attempt + 1)
  }

  /** The answer is taken from the first of the three reads that is
      accepted, and every read before it was refused; when none of the
      three is accepted the answer is 'a' after three reads. */
  lemma {:induction false} AcquireFirstAccepted(input: seq<ReadResult>, attempt: nat)
    requires attempt <= MAX_ATTEMPTS
    ensures var r := Acquire(input, attempt);
      (forall k :: attempt <= k < r.used - 1 ==> Accept(ReadAt(input, k)).None?) &&
      ((r.used > attempt && Accept(ReadAt(input, r.used - 1)) == Some(r.answer)) ||
       ((forall k :: attempt <= k < MAX_ATTEMPTS ==> Accept(ReadAt(input, k)).None?) &&
        r == Acquired(FALLBACK, MAX_ATTEMPTS)))
    decreases MAX_ATTEMPTS - attempt
  {
    if attempt < MAX_ATTEMPTS && Accept(ReadAt(input, attempt)).None? {
      AcquireFirstAccepted(input, attempt + 1);
    }
  }

  /** `getValidInput`: the loop of attempts over standard input. */
  method GetValidInput(input: seq<ReadResult>) returns (answer: char, used: nat)
    ensures Acquired(answer, used) == Acquire(input, 0)
    ensures IsChoice(answer) && 1 <= used <= MAX_ATTEMPTS
  {
    var attempts := 0;
    while attempts < MAX_ATTEMPTS
      invariant 0 <= attempts <= MAX_ATTEMPTS
      invariant Acquire(input, attempts) == Acquire(input, 0)
    {
      var r := ReadAt(input, attempts);
      if r.EndOfInput? {
        attempts := attempts + 1;
        continue;
      }
      answer := ToLower(FirstChar(r.text));
      if IsChoice(answer) {
        return answer, attempts + 1;
      }
      attempts := attempts + 1;
    }
    return FALLBACK, attempts;
  }

  /** What is left of standard input after `used` reads. */
  function Rest(input: seq<ReadResult>, used: nat): seq<ReadResult> {
    if used <= |input| then input[used..] else []
  }

  /** What is left of standard input once `n` questions have been
      answered. */
  function InputAfter(n: nat, input: seq<ReadResult>): seq<ReadResult> {
    if n == 0 then input
    else
      var before := InputAfter(n - 1, input);
      Rest(before, Acquire(before, 0).used)
  }

  /** The answers given to `n` questions in a row, each read with its own
      attempts from what the earlier ones left of standard input. */
  function SessionAnswers(n: nat, input: seq<ReadResult>): (answers: seq<char>)
    ensures |answers| == n
    ensures forall i :: 0 <= i < n ==> IsChoice(answers[i])
  {
    if n == 0 then []
    else SessionAnswers(n - 1, input) + [Acquire(InputAfter(n - 1, input), 0).answer]
  }

  /** One more question: its answer is read from what the earlier ones
      left, and the rest of the input is what that read leaves. */
  lemma SessionStep(n: nat, input: seq<ReadResult>)
    ensures SessionAnswers(n + 1, input)
         == SessionAnswers(n, input) + [Acquire(InputAfter(n, input), 0).answer]
    ensures InputAfter(n + 1, input)
         == Rest(InputAfter(n, input), Acquire(InputAfter(n, input), 0).used)
  {
  }

  /** Upper case, trailing text and the newline do not matter; another
      letter, an empty line and end-of-input are refused. */
  lemma CanonicalizationExamples()
    ensures Accept(Got("A\n")) == Some('a') && Accept(Got("a")) == Some('a')
    ensures Accept(Got("A ")) == Some('a') && Accept(Got("Dog\n")) == Some('d')
    ensures Accept(Got("z")).None? && Accept(Got("")).None? && Accept(EndOfInput).None?
    ensures Accept(Got("\n")).None? && Accept(Got(" a\n")).None?
  {
  }

  /** Three refused reads give 'a', which is then scored like any answer. */
  lemma FallbackAfterThreeRefusals()
    ensures Acquire([Got("z\n"), EndOfInput, Got("e\n"), Got("b\n")], 0) == Acquired('a', 3)
  {
  }
}
