# Professor Assistant, modelled in Dafny

Professor Assistant is an interactive command-line script (`professor_assistant.py`).
It helps an instructor build a randomised exam from a question bank. A bank is a
text file that holds a question on one line and its answer on the next. The
script repeats the same steps until the instructor answers "no":

- it asks whether to build an exam;
- it loads a bank;
- it asks how many pairs to include;
- it draws that many pairs at random without replacement;
- it writes them to an output file in the bank's own format.

This project models the logic inside that script and proves what it guarantees.
The modules follow the script's steps:

- `Options`: `Option` (a value that may be missing) and `Reply`, the outcome of a
  re-prompting question. A `Reply` is an answer together with the number of
  replies read, or `EndOfInput` when the input ran out first.
- `TextFile`: how `open(path, "r")` followed by `readlines()` presents a file,
  modelled on decoded text. Universal newlines turn every `"\r\n"` and every lone
  `"\r"` into `"\n"`, and `readlines()` keeps each `"\n"` on the line it ends.
  This module also models `str.rstrip("\n")`.
- `QuestionBank`: `load_question_bank`. A missing file is `None` and loads as the
  empty bank. Otherwise the cleaning loop and the pairing loop run over the lines.
  `PairLines` is the method with those two loops; `ParseBank` is the function
  that specifies it.
- `Sampler`: `select_random_pairs`, as a method that pops positions from a pool
  of indices. `randint(0, hi)` is an input: a function `rng(step, hi)` that is
  assumed only to respect randint's contract, `0 <= rng(step, hi) <= hi`. The
  function `Sample` specifies the method, through the drawn positions
  (`Positions`), the indices they remove (`Drawn`) and what stays in the pool
  (`Left`).
- `ExamWriter`: the write loop of `save_exam`, as a method building the file's
  text. `ExamText` specifies it, and the file format's round trip is proved
  against the loader.
- `Prompts`: `ask_yes_no` and `get_valid_question_count`, as loops over a finite
  stream of replies.
  - `Strip` follows Python's `str.strip()`, with the white-space set of
    `str.isspace()` written out.
  - `Lower` follows `str.lower()` on ASCII letters.
  - The count replies are the integers `int()` produced. `None` stands for a
    reply where `int()` raised `ValueError`.
- `Assistant`: one pass of `main`'s loop after the instructor answered yes. It
  loads the bank and returns to the question when the bank is empty. Otherwise it
  reads the count, samples, saves, and reports how the pass ended.

What the code does at its edges:

- **Unreadable bank file.** The code catches only `FileNotFoundError`
  (`professor_assistant.py:19-23`); any other failure to open or decode the file
  ends the program. The model therefore has only two cases: a missing file, or
  readable text.
- **End of input.** The re-prompting loops do not catch end of input
  (`professor_assistant.py:5-12`, `44-56`), so it ends the program. The model
  reports it as `EndOfInput`.
- **Count is checked by the caller.** `select_random_pairs` checks nothing
  itself: a count above the bank size makes `randint(0, -1)` raise. The
  sampler's precondition `count <= |pairs|` states that demand, and
  `Assistant.ExamRound` shows that the count check of `main` always meets it.
- **Distinct indices, not distinct questions.** The docstring of
  `select_random_pairs` promises unique pairs. What the code makes unique is the
  indices. The pairs are guaranteed unique only when the bank holds no pair twice
  (`Sampler.SampleNoRepeats`); a bank that holds a pair twice can give an exam
  that asks it twice (`Sampler.RepeatedPairRepeats`).

## Model

| member | source | states |
|---|---|---|
| `TextFile.TranslateNewlines` | professor_assistant.py:20 | after universal-newline translation no `"\r"` is left, text without `"\r"` is unchanged, and the text never grows |
| `TextFile.SplitLinesSpec` | professor_assistant.py:25 | the lines `readlines()` returns join back into the whole text; no line is empty, every line but the last ends in `"\n"`, and no line holds a `"\n"` before its end |
| `TextFile.ReadLinesSpec` | professor_assistant.py:20-25 | the lines read from a file join back into its translated text, are split exactly at the newlines and hold no `"\r"` |
| `TextFile.SplitLinesFirst` | professor_assistant.py:25 | a text that starts with `x + "\n"`, with no other newline in `x`, is read as that line followed by the lines of the rest |
| `TextFile.SplitLinesConcat` | professor_assistant.py:25 | lines that each end in their only newline, written one after another, are read back as exactly those lines |
| `TextFile.RStripNewlinesSpec` | professor_assistant.py:30 | `rstrip("\n")` gives a prefix of the line that does not end in `"\n"`, and every character cut off was a `"\n"` |
| `TextFile.RStripNewlinesIdempotent` | professor_assistant.py:30 | stripping a second time changes nothing |
| `TextFile.RStripOneNewline` | professor_assistant.py:30 | a line written as `x + "\n"`, where `x` does not end in a newline, is cleaned back to `x` |
| `QuestionBank.PairUp` | professor_assistant.py:32-38 | pairing gives floor(n/2) pairs for n lines, and pair i is lines 2i and 2i+1, in file order |
| `QuestionBank.CleanLinesSpec` | professor_assistant.py:28-30 | one cleaned line per raw line; each is a prefix of its raw line that does not end in `"\n"`, and only newlines were removed |
| `QuestionBank.ParseBank` | professor_assistant.py:28-38 | the bank of n lines has floor(n/2) pairs, and pair i is the cleaned lines 2i and 2i+1 |
| `QuestionBank.PairLines` | professor_assistant.py:28-38 | the cleaning loop followed by the pairing loop gives floor(n/2) pairs; pair i is the cleaned lines 2i and 2i+1, which is what `ParseBank` specifies |
| `QuestionBank.LoadQuestionBank` | professor_assistant.py:19-40 | a missing file gives the empty bank; an existing file gives its lines, read, cleaned and paired |
| `QuestionBank.OddLastLineDropped` | professor_assistant.py:34-38 | an odd last line does not change the bank |
| `QuestionBank.BankEmptyIff` | professor_assistant.py:34 | the bank is empty exactly when the file has fewer than two lines |
| `QuestionBank.ParseBankAppend` | professor_assistant.py:34-38 | pairs keep file order: the bank of an even-length front part followed by more lines is the front part's bank followed by the bank of the rest |
| `QuestionBank.CleanedLineIsOneLine` | professor_assistant.py:30 | a line as read from a file, once cleaned, holds no `"\n"` and no `"\r"` |
| `QuestionBank.LoadedFieldsOneLine` | professor_assistant.py:19-40 | no question or answer loaded from any file holds a line break |
| `Sampler.Range` | professor_assistant.py:66 | the first pool holds every index 0..n-1, in order |
| `Sampler.PopAt` | professor_assistant.py:71 | after `pop(p)` the elements before position p stay in place and those after it move down by one |
| `Sampler.PopMultiset` | professor_assistant.py:71 | a pop removes exactly one occurrence, that of the popped index |
| `Sampler.PopDistinct` | professor_assistant.py:71 | popping from a pool without repetitions leaves a pool without repetitions that no longer holds the popped index |
| `Sampler.Left` | professor_assistant.py:68-71 | the pool shrinks by exactly one index per step |
| `Sampler.Positions` | professor_assistant.py:68-70 | one position is drawn per step, and under randint's contract each lies within the pool of its step |
| `Sampler.PositionInPool` | professor_assistant.py:69-70 | under randint's contract the first k positions fit, and step k draws `randint(0, m - 1)`, where m is the size of the pool left after those k draws |
| `Sampler.DrawPermutation` | professor_assistant.py:66-71 | the indices drawn so far and the remaining pool together are the starting pool, rearranged |
| `Sampler.DrawnFromPool` | professor_assistant.py:71 | every drawn index came from the pool |
| `Sampler.DrawDistinct` | professor_assistant.py:66-71 | from a pool without repetitions, no index is drawn twice and no drawn index stays in the pool |
| `Sampler.PoolSplitAfter` | professor_assistant.py:66-71 | the loop invariant: after any number of steps, the drawn indices and the pool are disjoint, hold no index twice, are all below n and together are a permutation of 0..n-1 |
| `Sampler.DrawOneMore` | professor_assistant.py:69-72 | one more step adds the index at the drawn position of the current pool and pops that position |
| `Sampler.SelectStep` | professor_assistant.py:68-72 | one loop step from the full pool: the drawn position is within the pool, and the drawn indices and pool after the step are those of one more draw, all below n |
| `Sampler.LoopStart` | professor_assistant.py:64-66 | before the first step the selection and the drawn indices are empty and the pool is every index |
| `Sampler.LoopStep` | professor_assistant.py:68-72 | one pass of the loop body takes the loop state after i draws to the state after i+1 draws, and every index it touches is in range |
| `Sampler.LoopEnd` | professor_assistant.py:68-74 | after `count` passes of the loop the selection is the exam `Sample` specifies |
| `Sampler.PickOneMore` | professor_assistant.py:72 | appending the pair at the popped index extends the selection by exactly that pair |
| `Sampler.SampledIndices` | professor_assistant.py:59-74 | the sampler removes `count` indices, all below the bank size and pairwise distinct |
| `Sampler.Sample` | professor_assistant.py:59-74 | the exam has exactly `count` pairs, and each of them is a pair of the bank |
| `Sampler.SampleNoRepeats` | professor_assistant.py:59-74 | when the bank holds no pair twice, the exam holds no pair twice |
| `Sampler.RepeatedPairRepeats` | professor_assistant.py:59-74 | for example, the bank `[("a","b"), ("a","b")]` sampled for two pairs gives an exam that asks the same pair twice, whatever the random source |
| `Sampler.SelectRandomPairs` | professor_assistant.py:59-74 | the pop-and-append loop returns the exam `Sample` specifies, for every random source that respects randint's contract |
| `Sampler.PositionsOf` | professor_assistant.py:70-71 | for any sequence of distinct indices of a pool that holds no index twice there are positions, each within the pool of its step, whose draws remove exactly those indices in that order |
| `Sampler.Replay` | professor_assistant.py:68-70 | any positions that each lie within the pool of their step are the draws of some random source within randint's contract |
| `Sampler.Reachable` | professor_assistant.py:66-71 | every sequence of distinct indices below n can be drawn, by some random source that respects randint's contract |
| `Sampler.SampleReachable` | professor_assistant.py:59-74 | every selection of distinct bank positions, in any order, is an exam the sampler can return |
| `ExamWriter.ExamLines` | professor_assistant.py:84-87 | an exam of m pairs is written as 2m lines |
| `ExamWriter.ExamLinesAt` | professor_assistant.py:85-87 | pair i is written as line 2i, its question with `"\n"`, and line 2i+1, its answer with `"\n"` |
| `ExamWriter.ExamTextCons` | professor_assistant.py:85-87 | the file starts with the first pair's question line and answer line, followed by the text of the remaining pairs |
| `ExamWriter.SaveExam` | professor_assistant.py:77-90 | when the output opens, the write loop leaves the exam's text in the file and reports success; otherwise nothing is written and it reports failure |
| `ExamWriter.FieldBack` | professor_assistant.py:30 | a field written with its `"\n"` is cleaned back to itself exactly when it does not end in a newline |
| `ExamWriter.PairBack` | professor_assistant.py:30-38 | pair i is parsed back from its two written lines exactly when neither of its fields ends in a newline |
| `ExamWriter.ParseExamLines` | professor_assistant.py:30-38 | parsing the written lines gives back the exam exactly when no question or answer ends in a newline |
| `ExamWriter.ExamTextNoCarriageReturn` | professor_assistant.py:85-87 | the exam text holds no `"\r"` when no question or answer does |
| `ExamWriter.TerminatedField` | professor_assistant.py:86-87 | a field without line breaks, written with its `"\n"`, ends in its only newline |
| `ExamWriter.ExamLineTerminated` | professor_assistant.py:84-87 | every written line of an exam without line breaks ends in its only newline |
| `ExamWriter.SplitExamText` | professor_assistant.py:84-87 | splitting the exam text into lines gives exactly the lines written |
| `ExamWriter.ReadExamText` | professor_assistant.py:84-87 | reading the saved file gives exactly the lines written |
| `ExamWriter.RoundTrip` | professor_assistant.py:84-87 | the file format round trip: an exam whose fields hold no line break loads back from its file as the same pairs, in the same order |
| `ExamWriter.RoundTripIff` | professor_assistant.py:84-87 | an exam loads back from its file as itself exactly when no question or answer holds a line break |
| `ExamWriter.LineBreakBreaksRoundTrip` | professor_assistant.py:84-87 | for example, the exam with the one question `"Q\nR"` does not survive the round trip |
| `Prompts.StripLeftSpec` | professor_assistant.py:6 | `lstrip()` removes leading white space only: the result is a suffix of the input, what was cut is all white space, and the result does not start with white space |
| `Prompts.StripRightSpec` | professor_assistant.py:6 | `rstrip()` removes trailing white space only: the result is a prefix of the input, what was cut is all white space, and the result does not end with white space |
| `Prompts.StripSpec` | professor_assistant.py:6 | `strip()` leaves a contiguous part of the reply, with only white space around it, which neither starts nor ends with white space |
| `Prompts.StripPadding` | professor_assistant.py:6 | white space added around a reply does not change what `strip()` returns |
| `Prompts.StripLeftPadding` | professor_assistant.py:6 | leading white space is all removed |
| `Prompts.StripLeftAllSpace` | professor_assistant.py:6 | a reply made only of white space strips to the empty string |
| `Prompts.StripLeftAppend` | professor_assistant.py:6 | once a non-space character has been met, left stripping leaves the rest of the reply alone |
| `Prompts.StripRightPadding` | professor_assistant.py:6 | trailing white space is all removed |
| `Prompts.LowerChar` | professor_assistant.py:6 | an upper-case ASCII letter becomes its lower-case letter; every other character is unchanged |
| `Prompts.Lower` | professor_assistant.py:6 | lower-casing keeps the length of the reply |
| `Prompts.LowerAt` | professor_assistant.py:6 | lower-casing works character by character |
| `Prompts.LowerLetter` | professor_assistant.py:6 | a character lowers to a given lower-case letter exactly when it is that letter or its upper case |
| `Prompts.LowerWord` | professor_assistant.py:6-10 | a string lowers to a lower-case word exactly when it is that word with some of its letters in upper case |
| `Prompts.ClassifyYes` | professor_assistant.py:6-8 | a reply means yes exactly when, stripped, it is "yes" in any letter case |
| `Prompts.ClassifyNo` | professor_assistant.py:6-10 | a reply means no exactly when, stripped, it is "no" in any letter case |
| `Prompts.AskYesNo` | professor_assistant.py:3-12 | the answer is that of the first reply meaning yes or no, every earlier reply having been rejected; when no reply means either, there is no answer |
| `Prompts.GetValidQuestionCount` | professor_assistant.py:43-56 | the count is the first reply that parsed as an integer in [1, max_pairs], every earlier reply failing that check; when none passes, there is no count |
| `Assistant.ExamRound` | professor_assistant.py:116-136 | an empty bank never reaches the sampler. Otherwise the count is the first valid reply, within [1, bank size]; the exam is the sample of that many pairs; it is saved exactly when the output opens; a saved exam loads back as itself |
| `Assistant.ThreePairBank` | professor_assistant.py:15-40 | the file "Q1\nA1\nQ2\nA2\nQ3\nA3\n" loads as its three pairs, in order |
| `Assistant.TwoOfThree` | professor_assistant.py:59-90 | two pairs drawn from that bank are two different pairs of the bank, whatever the draws, and their exam file loads back as exactly those two pairs |

## Left out

- Console output (`print`) and the greeting and name prompt of `main` (lines 94-100) are left out. They are messages with no logic.
- The strip of the bank path and output path (lines 112-114, 126) is left out. Paths are not modelled.
- Only one pass of `main`'s loop is modelled, starting after a yes (`Assistant.ExamRound`). The outer loop that alternates the yes/no question with passes, and the farewell on no, are not modelled. Those replies all come from one interleaved console stream, and the loop only sequences steps that are proved one by one.
- The content of the output-path prompt and the file system are left out. `save_exam`'s `open` becomes the input `canWrite`/`canOpen`. `close()`, flushing and the platform's newline translation on write are left out; the model assumes `"\n"` is written as `"\n"`.
- The bank file's contents are decoded text. UTF-8 decoding is not modelled, and neither is the `UnicodeDecodeError` or `PermissionError` the code does not catch.
- End of input inside the yes/no and count prompts, which raises `EOFError` in the code, is modelled as `EndOfInput` rather than as a crash. End of input at the bank-path and output-path prompts (lines 112, 126) is not modelled: both paths are inputs of `Assistant.ExamRound`, which has no outcome for it.
- `int()` parsing (line 50) is left out. Each count reply is the parsed integer, or `None` where `int()` raised.
- Uniformity of `random.randint` is left out. It is probabilistic: the draw is an input function, constrained only by randint's range.
- `Prompts.Lower`: the contract covers ASCII letters only. Python's `str.lower()` also maps non-ASCII letters, some of them to more than one character; that is Unicode library behaviour this model does not reproduce.
- `Prompts.LowerChar`: only the ASCII letters `A`-`Z` are mapped; every other character, including non-ASCII upper-case letters, is left unchanged, for the same reason.
- `Sampler.SelectRandomPairs`: it requires `count <= |pairs|`. In the code, a larger count makes `randint(0, -1)` raise `ValueError`; the model does not reproduce that exception, and its only caller never passes such a count.
