/** The question file and what `loadQuestions` makes of it, as values.

    The file is the sequence of lines `fgets` returns, each still carrying
    its trailing '\n' when it has one. A record is six lines: question text,
    options A to D, and the answer line. Only a record's first line is
    tested for being blank or a `#` comment; the other five are taken as
    they come. */
module QuestionFile {
  import opened CText

  type Line = string

  /** The question file as `fopen` finds it: missing or unreadable, or the
      lines it holds. */
  datatype File = Unreadable | Lines(lines: seq<Line>)

  /** Size of the global `questions` array. */
  const CAPACITY: nat := 50

  datatype Question = Question(
    question: string,
    optionA: string,
    optionB: string,
    optionC: string,
    optionD: string,
    correctAnswer: char)

  /** A line that is skipped when it would begin a record. */
  predicate IsSkipLine(line: Line) {
    FirstChar(line) == '\n' || FirstChar(line) == '#'
  }

  /** The record stored for six complete lines: the first five cut at their
      first newline, the answer the lower-cased first character of the
      sixth, not checked against a..d. */
  function RecordOf(block: seq<Line>): (q: Question)
    requires |block| == 6
  {
    Question(StripNewline(block[0]), StripNewline(block[1]), StripNewline(block[2]),
             StripNewline(block[3]), StripNewline(block[4]), ToLower(FirstChar(block[5])))
  }

  /** What a record cut short leaves in the slot it was being copied into:
      the text fields whose lines exist are overwritten as in `RecordOf`,
      the others and the answer keep what the slot held. */
  function PartialRecord(slot: Question, block: seq<Line>): Question
    requires 1 <= |block| < 6
  {
    var q0 := slot.(question := StripNewline(block[0]));
    var q1 := if |block| > 1 then q0.(optionA := StripNewline(block[1])) else q0;
    var q2 := if |block| > 2 then q1.(optionB := StripNewline(block[2])) else q1;
    var q3 := if |block| > 3 then q2.(optionC := StripNewline(block[3])) else q2;
    if |block| > 4 then q3.(optionD := StripNewline(block[4])) else q3
  }

  /** No field of a stored question holds a newline. */
  predicate FieldsCut(q: Question) {
    '\n' !in q.question && '\n' !in q.optionA && '\n' !in q.optionB &&
    '\n' !in q.optionC && '\n' !in q.optionD
  }

  /** The records `loadQuestions` stores when `room` slots are left, in file
      order. Parsing stops when the lines run out, when no slot is left, or
      when a started record has fewer than six lines; that record is lost. */
  function Parse(lines: seq<Line>, room: nat): (qs: seq<Question>)
    ensures |qs| <= room
    decreases |lines|
  {
    if |lines| == 0 || room == 0 then []
    else if IsSkipLine(lines[0]) then Parse(lines[1..], room)
    else if |lines| < 6 then []
    else [RecordOf(lines[..6])] + Parse(lines[6..], room - 1)
  }

  // The three ways one pass of the `loadQuestions` loop can go, from the
  // line at `i`.

  lemma ParseSkip(lines: seq<Line>, i: nat, room: nat)
    requires i < |lines| && room > 0 && IsSkipLine(lines[i])
    ensures Parse(lines[i..], room) == Parse(lines[i + 1..], room)
  {
    assert lines[i..][1..] == lines[i + 1..];
  }

  lemma ParseCut(lines: seq<Line>, i: nat, room: nat)
    requires i < |lines| < i + 6 && room > 0 && !IsSkipLine(lines[i])
    ensures Parse(lines[i..], room) == []
  {
  }

  lemma ParseRecord(lines: seq<Line>, i: nat, room: nat)
    requires i + 6 <= |lines| && room > 0 && !IsSkipLine(lines[i])
    ensures Parse(lines[i..], room) == [RecordOf(lines[i..i + 6])] + Parse(lines[i + 6..], room - 1)
  {
    assert lines[i..][..6] == lines[i..i + 6];
    assert lines[i..][6..] == lines[i + 6..];
  }

  /** Every stored record has its text fields cut at the newline and a
      lower-case (or non-letter) answer. */
  lemma {:induction false} ParsedRecordCut(lines: seq<Line>, room: nat, k: nat)
    requires k < |Parse(lines, room)|
    ensures FieldsCut(Parse(lines, room)[k])
    ensures !IsUpper(Parse(lines, room)[k].correctAnswer)
    decreases |lines|
  {
    if IsSkipLine(lines[0]) {
      ParsedRecordCut(lines[1..], room, k);
    } else if k > 0 {
      ParsedRecordCut(lines[6..], room - 1, k - 1);
    } else {
      StripNewlineCuts(lines[0]);
      StripNewlineCuts(lines[1]);
      StripNewlineCuts(lines[2]);
      StripNewlineCuts(lines[3]);
      StripNewlineCuts(lines[4]);
    }
  }

  /** What `loadQuestions` stores from a whole file. */
  function Load(lines: seq<Line>): (qs: seq<Question>)
    ensures |qs| <= CAPACITY
  {
    Parse(lines, CAPACITY)
  }

  // ---------------------------------------------------------------------
  // Writing a question back as file lines; the partner of Parse.
  // ---------------------------------------------------------------------

  /** A question that a file can hold: its text begins a record (it is not
      empty and does not start with '#'), no field holds a newline, and its
      answer survives `tolower` and is not itself a newline. */
  predicate WellFormed(q: Question) {
    FieldsCut(q) && q.question != [] && q.question[0] != '#' &&
    q.correctAnswer != '\n' && !IsUpper(q.correctAnswer)
  }

  function RecordLines(q: Question): (block: seq<Line>)
    ensures |block| == 6
  {
    [q.question + "\n", q.optionA + "\n", q.optionB + "\n",
     q.optionC + "\n", q.optionD + "\n", [q.correctAnswer] + "\n"]
  }

  function Serialize(qs: seq<Question>): (lines: seq<Line>)
    ensures |lines| == 6 * |qs|
  {
    if qs == [] then [] else RecordLines(qs[0]) + Serialize(qs[1..])
  }

  predicate AllWellFormed(qs: seq<Question>) {
    forall k :: 0 <= k < |qs| ==> WellFormed(qs[k])
  }

  lemma RecordOfRecordLines(q: Question)
    requires WellFormed(q)
    ensures RecordOf(RecordLines(q)) == q
  {
    StripNewlineOfLine(q.question, "");
    StripNewlineOfLine(q.optionA, "");
    StripNewlineOfLine(q.optionB, "");
    StripNewlineOfLine(q.optionC, "");
    StripNewlineOfLine(q.optionD, "");
    assert q.question + "\n" == q.question + "\n" + "";
    assert q.optionA + "\n" == q.optionA + "\n" + "";
    assert q.optionB + "\n" == q.optionB + "\n" + "";
    assert q.optionC + "\n" == q.optionC + "\n" + "";
    assert q.optionD + "\n" == q.optionD + "\n" + "";
  }

  /** A well-formed record at the head of the lines is loaded when a slot
      is left. */
  lemma ParseRecordStep(q: Question, rest: seq<Line>, room: nat)
    requires WellFormed(q) && room > 0
    ensures Parse(RecordLines(q) + rest, room) == [q] + Parse(rest, room - 1)
  {
    var lines := RecordLines(q) + rest;
    assert lines[..6] == RecordLines(q);
    assert lines[6..] == rest;
    assert lines[0] == q.question + "\n";
    RecordOfRecordLines(q);
  }

  lemma ConsConcat<T>(s: seq<T>, t: seq<T>)
    requires s != []
    ensures [s[0]] + (s[1..] + t) == s + t
  {
    assert s == [s[0]] + s[1..];
  }

  lemma AllWellFormedTail(qs: seq<Question>)
    requires AllWellFormed(qs) && qs != []
    ensures WellFormed(qs[0]) && AllWellFormed(qs[1..])
  {
    forall k | 0 <= k < |qs| - 1 ensures WellFormed(qs[1..][k]) {
      assert qs[1..][k] == qs[k + 1];
    }
  }

  /** Parsing well-formed records followed by any further lines, with room
      for all of them: the records come back in order, and the further lines
      are parsed with the slots that are left. */
  lemma {:induction false} ParseSerialized(qs: seq<Question>, tail: seq<Line>, room: nat)
    requires AllWellFormed(qs) && |qs| <= room
    ensures Parse(Serialize(qs) + tail, room) == qs + Parse(tail, room - |qs|)
  {
    if qs == [] {
      assert Serialize(qs) + tail == tail;
    } else {
      var rest := Serialize(qs[1..]) + tail;
      var after := Parse(tail, room - |qs|);
      AllWellFormedTail(qs);
      calc {
        Parse(Serialize(qs) + tail, room);
        { assert Serialize(qs) + tail == RecordLines(qs[0]) + rest; }
        Parse(RecordLines(qs[0]) + rest, room);
        { ParseRecordStep(qs[0], rest, room); }
        [qs[0]] + Parse(rest, room - 1);
        { ParseSerialized(qs[1..], tail, room - 1); }
        [qs[0]] + (qs[1..] + after);
        { ConsConcat(qs, after); }
        qs + after;
      }
    }
  }

  /** With fewer slots than well-formed records, the first `room` records
      are loaded and nothing after them. */
  lemma {:induction false} ParseSerializedFull(qs: seq<Question>, tail: seq<Line>, room: nat)
    requires AllWellFormed(qs) && room <= |qs|
    ensures Parse(Serialize(qs) + tail, room) == qs[..room]
  {
    if room > 0 {
      var rest := Serialize(qs[1..]) + tail;
      assert Serialize(qs) + tail == RecordLines(qs[0]) + rest;
      AllWellFormedTail(qs);
      ParseRecordStep(qs[0], rest, room);
      ParseSerializedFull(qs[1..], tail, room - 1);
      assert qs[..room] == [qs[0]] + qs[1..][..room - 1];
    }
  }

  /** A file of at most 50 well-formed records loads exactly those records,
      in file order. */
  lemma LoadSerialized(qs: seq<Question>)
    requires AllWellFormed(qs) && |qs| <= CAPACITY
    ensures Load(Serialize(qs)) == qs
  {
    ParseSerialized(qs, [], CAPACITY);
    assert Serialize(qs) + [] == Serialize(qs);
    assert qs + [] == qs;
  }

  /** Records past the fiftieth are never loaded. */
  lemma LoadKeepsFirstFifty(qs: seq<Question>)
    requires AllWellFormed(qs) && |qs| > CAPACITY
    ensures Load(Serialize(qs)) == qs[..CAPACITY]
  {
    ParseSerializedFull(qs, [], CAPACITY);
    assert Serialize(qs) + [] == Serialize(qs);
  }

  /** Fewer than six lines never make a record, whatever they hold. */
  lemma {:induction false} ShortTailLoadsNothing(tail: seq<Line>, room: nat)
    requires |tail| < 6
    ensures Parse(tail, room) == []
    decreases |tail|
  {
    if |tail| > 0 && room > 0 && IsSkipLine(tail[0]) {
      ShortTailLoadsNothing(tail[1..], room);
    }
  }

  /** A record cut short at the end of the file is dropped: only the
      complete records before it are loaded. */
  lemma TruncatedRecordDropped(qs: seq<Question>, tail: seq<Line>)
    requires AllWellFormed(qs) && |qs| <= CAPACITY && |tail| < 6
    ensures Load(Serialize(qs) + tail) == qs
  {
    var room: nat := CAPACITY - |qs|;
    var rest := Parse(tail, room);
    ShortTailLoadsNothing(tail, room);
    assert rest == [];
    ParseSerialized(qs, tail, CAPACITY);
    assert qs + rest == qs;
  }

  /** Blank and comment lines where a record would begin take no slot. */
  lemma {:induction false} SeparatorsSkipped(seps: seq<Line>, lines: seq<Line>, room: nat)
    requires forall k :: 0 <= k < |seps| ==> IsSkipLine(seps[k])
    ensures Parse(seps + lines, room) == Parse(lines, room)
    decreases |seps|
  {
    if seps == [] {
      assert seps + lines == lines;
    } else if room > 0 {
      assert (seps + lines)[1..] == seps[1..] + lines;
      SeparatorsSkipped(seps[1..], lines, room);
    }
  }

  /** Inside a started record the skip test is not applied: a blank line and
      a comment line become options, and an answer line other than a..d is
      stored as it is. */
  lemma SkipTestOnlyOnFirstLine()
    ensures Load(["Q?\n", "#1\n", "\n", "C\n", "D\n", "X\n"])
         == [Question("Q?", "#1", "", "C", "D", 'x')]
  {
    var lines: seq<Line> := ["Q?\n", "#1\n", "\n", "C\n", "D\n", "X\n"];
    assert lines[..6] == lines;
    assert lines[6..] == [];
    assert StripNewline("#1\n") == "#1" by { StripNewlineOfLine("#1", ""); assert "#1\n" == "#1" + "\n" + ""; }
    assert StripNewline("Q?\n") == "Q?" by { StripNewlineOfLine("Q?", ""); assert "Q?\n" == "Q?" + "\n" + ""; }
    assert StripNewline("C\n") == "C" by { StripNewlineOfLine("C", ""); assert "C\n" == "C" + "\n" + ""; }
    assert StripNewline("D\n") == "D" by { StripNewlineOfLine("D", ""); assert "D\n" == "D" + "\n" + ""; }
  }
}
