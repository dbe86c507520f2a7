/**
 * The exam writer (`save_exam`): each selected pair is written as the question
 * on one line and the answer on the next, the same format the loader reads.
 */
module ExamWriter {
  import opened Options
  import opened TextFile
  import opened QuestionBank

  /** The lines written for an exam, each with its "\n". */
  function ExamLines(exam: seq<Pair>): (lines: seq<string>)
    ensures |lines| == 2 * |exam|
    decreases |exam|
  {
    if exam == [] then []
    else [exam[0].question + "\n", exam[0].answer + "\n"] + ExamLines(exam[1..])
  }

  /** Pair i is written as lines 2i and 2i+1: the question, then the answer, each with its newline. */
  lemma {:induction false} ExamLinesAt(exam: seq<Pair>, i: nat)
    requires i < |exam|
    ensures ExamLines(exam)[2 * i] == exam[i].question + "\n"
    ensures ExamLines(exam)[2 * i + 1] == exam[i].answer + "\n"
    decreases i
  {
    if i > 0 {
      ExamLinesAt(exam[1..], i - 1);
      assert exam[1..][i - 1] == exam[i];
    }
  }

  /** The contents of the exam file. */
  function ExamText(exam: seq<Pair>): (text: string)
  {
    Concat(ExamLines(exam))
  }

  /** The exam file starts with the first pair's two lines. */
  lemma ExamTextCons(exam: seq<Pair>)
    requires exam != []
    ensures ExamText(exam) == exam[0].question + "\n" + exam[0].answer + "\n" + ExamText(exam[1..])
  {
    var lines := ExamLines(exam);
    assert lines == [exam[0].question + "\n", exam[0].answer + "\n"] + ExamLines(exam[1..]);
    assert lines[1..][1..] == ExamLines(exam[1..]);
    assert Concat(lines) == lines[0] + Concat(lines[1..]);
    assert Concat(lines[1..]) == lines[1] + Concat(lines[1..][1..]);
  }

  /**
   * The write loop of `save_exam`. `canOpen` says whether the output path
   * could be opened for writing; `text` is what the file then holds.
   */
  method SaveExam(canOpen: bool, selected: seq<Pair>) returns (ok: bool, text: string)
    ensures ok == canOpen
    ensures ok ==> text == ExamText(selected)
    ensures !ok ==> text == []
  {
    if !canOpen {
      return false, [];
    }
    text := [];
    for i := 0 to |selected|
      invariant text + ExamText(selected[i..]) == ExamText(selected)
    {
      ExamTextCons(selected[i..]);
      assert selected[i..][1..] == selected[i + 1..];
      var question, answer := selected[i].question, selected[i].answer;
      text := text + (question + "\n");
      text := text + (answer + "\n");
    }
    assert selected[|selected|..] == [];
    ok := true;
  }

  /** A field that reads back unchanged: it does not end in a newline. */
  predicate Clean(field: string)
  {
    field == [] || field[|field| - 1] != '\n'
  }

  /** A field written with its "\n" is read back unchanged exactly when it is clean. */
  lemma FieldBack(field: string)
    ensures RStripNewlines(field + "\n") == field <==> Clean(field)
  {
    if Clean(field) {
      RStripOneNewline(field);
    } else {
      RStripNewlinesSpec(field + "\n");
    }
  }

  /** One pair read back from its two written lines. */
  lemma PairBack(exam: seq<Pair>, i: nat)
    requires i < |exam|
    ensures ParseBank(ExamLines(exam))[i] == exam[i] <==> Clean(exam[i].question) && Clean(exam[i].answer)
  {
    ExamLinesAt(exam, i);
    FieldBack(exam[i].question);
    FieldBack(exam[i].answer);
  }

  /**
   * Parsing the written lines gives back the exam exactly when no question or
   * answer ends in a newline (the loader strips all trailing newlines).
   */
  lemma ParseExamLines(exam: seq<Pair>)
    ensures ParseBank(ExamLines(exam)) == exam <==>
      forall i | 0 <= i < |exam| :: Clean(exam[i].question) && Clean(exam[i].answer)
  {
    var back := ParseBank(ExamLines(exam));
    assert |back| == |exam|;
    forall i | 0 <= i < |exam|
      ensures back[i] == exam[i] <==> Clean(exam[i].question) && Clean(exam[i].answer)
    {
      PairBack(exam, i);
    }
  }

  /** The exam text holds no carriage return when no field does. */
  lemma {:induction false} ExamTextNoCarriageReturn(exam: seq<Pair>)
    requires forall i | 0 <= i < |exam| :: '\r' !in exam[i].question && '\r' !in exam[i].answer
    ensures '\r' !in ExamText(exam)
    decreases |exam|
  {
    if exam != [] {
      ExamTextCons(exam);
      assert forall i | 0 <= i < |exam| - 1 :: exam[1..][i] == exam[i + 1];
      ExamTextNoCarriageReturn(exam[1..]);
    }
  }

  /** A field without line breaks, written with its newline, ends in its only newline. */
  lemma TerminatedField(field: string)
    requires OneLine(field)
    ensures Terminated(field + "\n")
  {
    var line := field + "\n";
    assert line[..|line| - 1] == field;
  }

  /** Every written line of an exam without line breaks ends in its only newline. */
  lemma {:induction false} ExamLineTerminated(exam: seq<Pair>, k: nat)
    requires forall i | 0 <= i < |exam| :: OneLine(exam[i].question) && OneLine(exam[i].answer)
    requires k < 2 * |exam|
    ensures Terminated(ExamLines(exam)[k])
    decreases k
  {
    var rest := exam[1..];
    assert ExamLines(exam) == [exam[0].question + "\n", exam[0].answer + "\n"] + ExamLines(rest);
    if k == 0 {
      TerminatedField(exam[0].question);
    } else if k == 1 {
      TerminatedField(exam[0].answer);
    } else {
      assert forall i | 0 <= i < |rest| :: rest[i] == exam[i + 1];
      ExamLineTerminated(rest, k - 2);
    }
  }

  /** Splitting the exam text gives the very lines that were written. */
  lemma SplitExamText(exam: seq<Pair>)
    requires forall i | 0 <= i < |exam| :: OneLine(exam[i].question) && OneLine(exam[i].answer)
    ensures SplitLines(ExamText(exam)) == ExamLines(exam)
  {
    var lines := ExamLines(exam);
    forall k | 0 <= k < |lines| ensures Terminated(lines[k]) {
      ExamLineTerminated(exam, k);
    }
    SplitLinesConcat(lines);
  }

  /** What the file holds is read back as the very lines that were written. */
  lemma ReadExamText(exam: seq<Pair>)
    requires forall i | 0 <= i < |exam| :: OneLine(exam[i].question) && OneLine(exam[i].answer)
    ensures ReadLines(ExamText(exam)) == ExamLines(exam)
  {
    ExamTextNoCarriageReturn(exam);
    SplitExamText(exam);
  }

  /**
   * The round trip of the file format: an exam whose questions and answers
   * hold no line break is loaded back, from the file it was saved to, as the
   * same pairs in the same order.
   */
  lemma RoundTrip(exam: seq<Pair>)
    requires forall i | 0 <= i < |exam| :: OneLine(exam[i].question) && OneLine(exam[i].answer)
    ensures Load(Some(ExamText(exam))) == exam
  {
    ReadExamText(exam);
    ParseExamLines(exam);
    assert forall i | 0 <= i < |exam| :: Clean(exam[i].question) && Clean(exam[i].answer);
  }

  /**
   * The round trip holds for exactly the exams whose questions and answers
   * hold no line break: any field with a "\n" or "\r" in it is not loaded back.
   */
  lemma RoundTripIff(exam: seq<Pair>)
    ensures Load(Some(ExamText(exam))) == exam <==>
      forall i | 0 <= i < |exam| :: OneLine(exam[i].question) && OneLine(exam[i].answer)
  {
    LoadedFieldsOneLine(Some(ExamText(exam)));
    if forall i | 0 <= i < |exam| :: OneLine(exam[i].question) && OneLine(exam[i].answer) {
      RoundTrip(exam);
    }
  }

  /** For example, a question holding a line break does not survive the round trip. */
  lemma LineBreakBreaksRoundTrip()
    ensures Load(Some(ExamText([Pair("Q\nR", "A")]))) != [Pair("Q\nR", "A")]
  {
    var exam := [Pair("Q\nR", "A")];
    var text := ExamText(exam);
    ExamTextCons(exam);
    assert ExamText(exam[1..]) == [];
    assert text == "Q" + "\n" + ("R" + "\n" + "A\n");
    assert '\r' !in text;
    SplitLinesFirst("Q", "R" + "\n" + "A\n");
    SplitLinesFirst("R", "A\n");
    var lines := ReadLines(text);
    assert lines[0] == "Q\n" && |lines| >= 2;
    RStripOneNewline("Q");
    assert Load(Some(text))[0].question == "Q";
  }

}
