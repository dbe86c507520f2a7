/**
 * The question bank loader (`load_question_bank`): the file's lines are
 * cleaned of their trailing newlines and paired two by two into
 * (question, answer) pairs; an odd last line is dropped and a missing file
 * gives an empty bank.
 */
module QuestionBank {
  import opened Options
  import opened TextFile

  /** One question with its answer, read from two consecutive lines. */
  datatype Pair = Pair(question: string, answer: string)

  /** A field the file can carry on one line: no line break of any kind inside it. */
  predicate OneLine(field: string)
  {
    '\n' !in field && '\r' !in field
  }

  /** Consecutive lines paired up in order; a last unpaired line is dropped. */
  function PairUp(lines: seq<string>): (pairs: seq<Pair>)
    ensures |pairs| == |lines| / 2
    ensures forall i | 0 <= i < |pairs| :: pairs[i] == Pair(lines[2 * i], lines[2 * i + 1])
    decreases |lines|
  {
    if |lines| < 2 then []
    else
      var rest := PairUp(lines[2..]);
      assert forall i | 0 < i <= |rest| :: lines[2 * i] == lines[2..][2 * (i - 1)];
      [Pair(lines[0], lines[1])] + rest
  }

  /** Every line with its trailing newlines removed, one cleaned line per raw line. */
  function CleanLines(lines: seq<string>): (cleaned: seq<string>)
    ensures |cleaned| == |lines|
    ensures forall i | 0 <= i < |lines| :: cleaned[i] == RStripNewlines(lines[i])
  {
    seq(|lines|, i requires 0 <= i < |lines| => RStripNewlines(lines[i]))
  }

  /**
   * Cleaning removes trailing newlines and nothing else: one cleaned line per
   * raw line, each a prefix of its raw line that does not end in "\n", with
   * only newlines cut off.
   */
  lemma CleanLinesSpec(lines: seq<string>)
    ensures var cleaned := CleanLines(lines);
      && |cleaned| == |lines|
      && forall i | 0 <= i < |lines| ::
        && cleaned[i] <= lines[i]
        && (cleaned[i] == [] || cleaned[i][|cleaned[i]| - 1] != '\n')
        && forall j | |cleaned[i]| <= j < |lines[i]| :: lines[i][j] == '\n'
  {
    forall i | 0 <= i < |lines| {
      RStripNewlinesSpec(lines[i]);
    }
  }

  /** The bank read from the lines of a file. */
  function ParseBank(lines: seq<string>): (pairs: seq<Pair>)
    ensures |pairs| == |lines| / 2
    ensures forall i | 0 <= i < |pairs| ::
      pairs[i] == Pair(RStripNewlines(lines[2 * i]), RStripNewlines(lines[2 * i + 1]))
  {
    PairUp(CleanLines(lines))
  }

  /** The bank loaded from a file that may be missing (`None`): a missing file is an empty bank. */
  function Load(file: Option<string>): (pairs: seq<Pair>)
  {
    match file
    case None => []
    case Some(text) => ParseBank(ReadLines(text))
  }

  /**
   * The cleaning loop and the pairing loop of the loader, over the lines the
   * file gave.
   */
  method PairLines(lines: seq<string>) returns (pairs: seq<Pair>)
    ensures |pairs| == |lines| / 2
    ensures forall i | 0 <= i < |pairs| ::
      pairs[i] == Pair(RStripNewlines(lines[2 * i]), RStripNewlines(lines[2 * i + 1]))
    ensures pairs == ParseBank(lines)
  {
    var cleanedLines: seq<string> := [];
    for k := 0 to |lines|
      invariant |cleanedLines| == k
      invariant forall j | 0 <= j < k :: cleanedLines[j] == RStripNewlines(lines[j])
    {
      cleanedLines := cleanedLines + [RStripNewlines(lines[k])];
    }
    pairs := [];
    var index := 0;
    while index + 1 < |cleanedLines|
      invariant index == 2 * |pairs| && index <= |cleanedLines|
      invariant forall i | 0 <= i < |pairs| :: pairs[i] == Pair(cleanedLines[2 * i], cleanedLines[2 * i + 1])
    {
      var question := cleanedLines[index];
      var answer := cleanedLines[index + 1];
      pairs := pairs + [Pair(question, answer)];
      index := index + 2;
    }
    assert |pairs| == |lines| / 2;
  }

  /** `load_question_bank`: the file's contents, or `None` when it does not exist. */
  method LoadQuestionBank(file: Option<string>) returns (pairs: seq<Pair>)
    ensures file.None? ==> pairs == []
    ensures file.Some? ==> pairs == ParseBank(ReadLines(file.value))
    ensures pairs == Load(file)
  {
    if file.None? {
      return [];
    }
    var lines := ReadLines(file.value);
    pairs := PairLines(lines);
  }

  /** An odd last line is dropped: it does not change the bank. */
  lemma {:induction false} OddLastLineDropped(lines: seq<string>, last: string)
    requires |lines| % 2 == 0
    ensures ParseBank(lines + [last]) == ParseBank(lines)
  {
    var longer := lines + [last];
    assert forall i | 0 <= i < |lines| :: longer[i] == lines[i];
  }

  /** The bank is empty exactly when the file had fewer than two lines. */
  lemma BankEmptyIff(lines: seq<string>)
    ensures ParseBank(lines) == [] <==> |lines| < 2
  {
  }

  /** Pairs keep the order of the file: the bank of a file is the bank of its first part followed by that of the rest. */
  lemma {:induction false} ParseBankAppend(front: seq<string>, back: seq<string>)
    requires |front| % 2 == 0
    ensures ParseBank(front + back) == ParseBank(front) + ParseBank(back)
  {
    var whole := front + back;
    var l, r, w := ParseBank(front), ParseBank(back), ParseBank(whole);
    assert |front| == 2 * |l|;
    assert |w| == |l| + |r|;
    forall i | 0 <= i < |w| ensures w[i] == (l + r)[i] {
      assert w[i] == Pair(RStripNewlines(whole[2 * i]), RStripNewlines(whole[2 * i + 1]));
      if i < |l| {
        assert whole[2 * i] == front[2 * i] && whole[2 * i + 1] == front[2 * i + 1];
        assert (l + r)[i] == l[i];
      } else {
        var j := i - |l|;
        assert 2 * i == |front| + 2 * j;
        assert whole[2 * i] == back[2 * j] && whole[2 * i + 1] == back[2 * j + 1];
        assert (l + r)[i] == r[j];
      }
    }
  }

  /** A line read from a file, once cleaned, holds no line break. */
  lemma CleanedLineIsOneLine(line: string)
    requires '\r' !in line
    requires forall j | 0 <= j < |line| - 1 :: line[j] != '\n'
    ensures OneLine(RStripNewlines(line))
  {
    var r := RStripNewlines(line);
    RStripNewlinesSpec(line);
    forall j | 0 <= j < |r| ensures r[j] != '\n' && r[j] != '\r' {
      assert r[j] == line[j];
    }
  }

  /** Every question and answer loaded from a file lies on one line. */
  lemma LoadedFieldsOneLine(file: Option<string>)
    ensures forall i | 0 <= i < |Load(file)| :: OneLine(Load(file)[i].question) && OneLine(Load(file)[i].answer)
  {
    if file.Some? {
      var lines := ReadLines(file.value);
      ReadLinesSpec(file.value);
      var pairs := Load(file);
      forall i | 0 <= i < |pairs| ensures OneLine(pairs[i].question) && OneLine(pairs[i].answer) {
        CleanedLineIsOneLine(lines[2 * i]);
        CleanedLineIsOneLine(lines[2 * i + 1]);
      }
    }
  }
}
