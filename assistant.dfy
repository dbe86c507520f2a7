/**
 * One pass of the assistant's main loop, after the user has answered yes:
 * load the bank, skip back to the yes/no question when it holds no pair,
 * otherwise ask for a count, sample that many pairs and save them.
 */
module Assistant {
  import opened Options
  import opened QuestionBank
  import opened Sampler
  import opened ExamWriter
  import opened Prompts

  /** How one pass ends. */
  datatype Round =
    | NoPairs                                            // bank missing or without a pair: ask again
    | NoCount                                            // input ended while asking for the count
    | Saved(count: nat, exam: seq<Pair>, text: string)   // exam written; `text` is the file's contents
    | NotSaved(count: nat, exam: seq<Pair>)              // the output file could not be opened

  /** The reply that `get_valid_question_count` accepts is the k-th one. */
  ghost predicate FirstValidCount(replies: seq<Option<int>>, maxPairs: nat, k: nat)
  {
    && k < |replies| && replies[k].Some? && ValidCount(replies[k].value, maxPairs)
    && forall j | 0 <= j < k :: !(replies[j].Some? && ValidCount(replies[j].value, maxPairs))
  }

  /**
   * The body of `main`'s loop. `bank` is the question bank file (`None` when it
   * does not exist), `countReplies` the parsed replies to the count question,
   * `rng` the random source and `canWrite` whether the output path opens.
   */
  method ExamRound(bank: Option<string>, countReplies: seq<Option<int>>, rng: Rng, canWrite: bool)
    returns (round: Round)
    requires IsRandint(rng)
    ensures round.NoPairs? <==> Load(bank) == []
    ensures round.NoCount? <==>
      Load(bank) != [] && forall j | 0 <= j < |countReplies| :: !(countReplies[j].Some? && ValidCount(countReplies[j].value, |Load(bank)|))
    ensures round.Saved? || round.NotSaved? ==>
      && 1 <= round.count <= |Load(bank)|
      && (exists k: nat :: FirstValidCount(countReplies, |Load(bank)|, k) && countReplies[k].value == round.count)
      && round.exam == Sample(Load(bank), round.count, rng)
      && (round.Saved? <==> canWrite)
    ensures round.Saved? ==> round.text == ExamText(round.exam) && Load(Some(round.text)) == round.exam
  {
    var pairs := LoadQuestionBank(bank);
    if |pairs| == 0 {
      return NoPairs;
    }
    var maxPairs := |pairs|;
    var reply := GetValidQuestionCount(maxPairs, countReplies);
    if reply.EndOfInput? {
      return NoCount;
    }
    var questionCount := reply.value;
    assert FirstValidCount(countReplies, maxPairs, reply.used - 1);
    var selectedPairs := SelectRandomPairs(pairs, questionCount, rng);
    var success, text := SaveExam(canWrite, selectedPairs);
    if success {
      LoadedFieldsOneLine(bank);
      RoundTrip(selectedPairs);
      round := Saved(questionCount, selectedPairs, text);
    } else {
      round := NotSaved(questionCount, selectedPairs);
    }
  }

  /** A bank of three pairs, written one field per line. */
  const ThreePairs := [Pair("Q1", "A1"), Pair("Q2", "A2"), Pair("Q3", "A3")]

  /** The file "Q1\nA1\nQ2\nA2\nQ3\nA3\n" loads as its three pairs, in order. */
  lemma ThreePairBank()
    ensures Load(Some("Q1\nA1\nQ2\nA2\nQ3\nA3\n")) == ThreePairs
  {
    ThreePairText();
    RoundTrip(ThreePairs);
  }

  /** That file is the text `save_exam` writes for the three pairs. */
  lemma ThreePairText()
    ensures ExamText(ThreePairs) == "Q1\nA1\nQ2\nA2\nQ3\nA3\n"
  {
    var bank := ThreePairs;
    ExamTextCons(bank[2..]);
    assert ExamText(bank[3..]) == [];
    var t3 := ExamText(bank[2..]);
    assert t3 == "Q3\nA3\n";
    ExamTextCons(bank[1..]);
    assert bank[1..][1..] == bank[2..];
    var t2 := ExamText(bank[1..]);
    assert t2 == "Q2\nA2\n" + t3;
    ExamTextCons(bank);
    assert ExamText(bank) == "Q1\nA1\n" + t2;
  }

  /**
   * Asking for two pairs from that bank gives, whatever the random draws, two
   * different pairs of the bank, and the exam file loads back as exactly those
   * two pairs.
   */
  lemma TwoOfThree(rng: Rng)
    requires IsRandint(rng)
    ensures var exam := Sample(ThreePairs, 2, rng);
      && |exam| == 2 && exam[0] in ThreePairs && exam[1] in ThreePairs && exam[0] != exam[1]
      && Load(Some(ExamText(exam))) == exam
  {
    var exam := Sample(ThreePairs, 2, rng);
    SampleNoRepeats(ThreePairs, 2, rng);
    assert forall k | 0 <= k < |exam| :: OneLine(exam[k].question) && OneLine(exam[k].answer) by {
      forall k | 0 <= k < |exam| ensures OneLine(exam[k].question) && OneLine(exam[k].answer) {
        assert exam[k] in ThreePairs;
      }
    }
    RoundTrip(exam);
  }
}
