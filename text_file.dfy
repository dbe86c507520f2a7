/**
 * Reading a text file as the question bank loader does: `open(path, "r")`
 * followed by `readlines()`, and `str.rstrip("\n")` on each line.
 * File contents are decoded text (`string`); the decoding itself is not modelled.
 */
module TextFile {

  /** Concatenation of a sequence of strings, as the file holds what was written line by line. */
  function Concat(parts: seq<string>): (text: string)
    decreases |parts|
  {
    if parts == [] then [] else parts[0] + Concat(parts[1..])
  }

  /**
   * Universal-newline translation done by a file opened in text mode with the
   * default `newline=None`: every "\r\n" and every lone "\r" reads as "\n".
   */
  function TranslateNewlines(text: string): (r: string)
    ensures '\r' !in r
    ensures '\r' !in text ==> r == text
    ensures |r| <= |text|
    decreases |text|
  {
    if text == [] then []
    else if text[0] == '\r' then
      "\n" + TranslateNewlines(if |text| > 1 && text[1] == '\n' then text[2..] else text[1..])
    else
      [text[0]] + TranslateNewlines(text[1..])
  }

  /**
   * Splitting translated text into lines the way `readlines()` does: each line
   * runs up to and including the next "\n"; a last line may lack one.
   */
  function SplitLines(text: string): (lines: seq<string>)
    ensures text == [] <==> lines == []
    decreases |text|
  {
    if text == [] then []
    else
      var rest := SplitLines(text[1..]);
      if text[0] == '\n' then ["\n"] + rest
      else if rest == [] then [[text[0]]]
      else [[text[0]] + rest[0]] + rest[1..]
  }

  /** The lines a text splits into: no line is empty or holds a newline before its end, every line but the last ends in one. */
  predicate IsLineSplit(lines: seq<string>)
  {
    && (forall i | 0 <= i < |lines| :: lines[i] != [])
    && (forall i | 0 <= i < |lines| - 1 :: lines[i][|lines[i]| - 1] == '\n')
    && (forall i, j | 0 <= i < |lines| && 0 <= j < |lines[i]| - 1 :: lines[i][j] != '\n')
  }

  /** `readlines()` loses nothing: the lines put back together are the text, and they are split at the newlines. */
  lemma SplitLinesSpec(text: string)
    ensures Concat(SplitLines(text)) == text
    ensures IsLineSplit(SplitLines(text))
  {
    SplitLinesJoin(text);
    SplitLinesShape(text);
  }

  /** The lines put back together are the text. */
  lemma {:induction false} SplitLinesJoin(text: string)
    ensures Concat(SplitLines(text)) == text
    decreases |text|
  {
    if text != [] {
      var c, rest := text[0], SplitLines(text[1..]);
      SplitLinesJoin(text[1..]);
      assert text == [c] + text[1..];
      if c == '\n' {
        assert SplitLines(text) == ["\n"] + rest;
      } else if rest != [] {
        var lines := SplitLines(text);
        assert lines == [[c] + rest[0]] + rest[1..];
        assert Concat(rest) == rest[0] + Concat(rest[1..]);
        assert Concat(lines) == ([c] + rest[0]) + Concat(rest[1..]);
      }
    }
  }

  /** The lines are split at the newlines. */
  lemma {:induction false} SplitLinesShape(text: string)
    ensures IsLineSplit(SplitLines(text))
    decreases |text|
  {
    if text != [] {
      var c, rest := text[0], SplitLines(text[1..]);
      SplitLinesShape(text[1..]);
      if c == '\n' {
        NewlineLineSplit(rest);
      } else if rest != [] {
        ConsLineSplit(c, rest);
      }
    }
  }

  /** A newline on its own line in front of a split keeps it a split. */
  lemma NewlineLineSplit(rest: seq<string>)
    requires IsLineSplit(rest)
    ensures IsLineSplit(["\n"] + rest)
  {
    var lines := ["\n"] + rest;
    forall i | 0 < i < |lines| ensures lines[i] == rest[i - 1] {}
  }

  /** A character other than a newline joins the first line of a split. */
  lemma ConsLineSplit(c: char, rest: seq<string>)
    requires IsLineSplit(rest) && rest != [] && c != '\n'
    ensures IsLineSplit([[c] + rest[0]] + rest[1..])
  {
    var first := [c] + rest[0];
    var lines := [first] + rest[1..];
    forall i | 0 < i < |lines| ensures lines[i] == rest[i] {}
    forall j | 0 <= j < |first| - 1 ensures first[j] != '\n' {
      if j > 0 {
        assert first[j] == rest[0][j - 1];
      }
    }
    assert |lines| > 1 ==> first[|first| - 1] == rest[0][|rest[0]| - 1];
  }

  /** `file.readlines()` on a file opened in text mode. */
  function ReadLines(text: string): (lines: seq<string>)
    ensures TranslateNewlines(text) == [] <==> lines == []
  {
    SplitLines(TranslateNewlines(text))
  }

  /** The lines `readlines()` gives are the translated text, split at its newlines, with no carriage return left. */
  lemma ReadLinesSpec(text: string)
    ensures Concat(ReadLines(text)) == TranslateNewlines(text)
    ensures IsLineSplit(ReadLines(text))
    ensures forall i | 0 <= i < |ReadLines(text)| :: '\r' !in ReadLines(text)[i]
  {
    var lines := ReadLines(text);
    SplitLinesSpec(TranslateNewlines(text));
    forall i | 0 <= i < |lines| ensures '\r' !in lines[i] {
      ConcatHoldsPart(lines, i);
    }
  }

  /** Every character of one part occurs in the concatenation. */
  lemma {:induction false} ConcatHoldsPart(parts: seq<string>, i: nat)
    requires i < |parts|
    ensures forall c | c in parts[i] :: c in Concat(parts)
    decreases i
  {
    if i > 0 {
      ConcatHoldsPart(parts[1..], i - 1);
      assert parts[1..][i - 1] == parts[i];
    }
  }

  /** A line "x\n" with no other newline in x is read back as one line. */
  lemma {:induction false} SplitLinesFirst(x: string, rest: string)
    requires '\n' !in x
    ensures SplitLines(x + "\n" + rest) == [x + "\n"] + SplitLines(rest)
    decreases |x|
  {
    var text := x + "\n" + rest;
    if x == [] {
      assert text[0] == '\n' && text[1..] == rest && x + "\n" == "\n";
    } else {
      assert text[1..] == x[1..] + "\n" + rest;
      assert x[0] in x && text[0] == x[0];
      SplitLinesFirst(x[1..], rest);
      assert [text[0]] + (x[1..] + "\n") == x + "\n";
    }
  }

  /** A written line: it ends in a newline and holds no other. */
  predicate Terminated(line: string)
  {
    |line| > 0 && line[|line| - 1] == '\n' && '\n' !in line[..|line| - 1]
  }

  /** Lines that each end in their only newline are read back exactly as written. */
  lemma {:induction false} SplitLinesConcat(lines: seq<string>)
    requires forall i | 0 <= i < |lines| :: Terminated(lines[i])
    ensures SplitLines(Concat(lines)) == lines
    decreases |lines|
  {
    if lines != [] {
      var l := lines[0];
      var x := l[..|l| - 1];
      assert Terminated(l);
      assert l == x + "\n";
      assert forall i | 0 <= i < |lines| - 1 :: lines[1..][i] == lines[i + 1];
      SplitLinesConcat(lines[1..]);
      SplitLinesFirst(x, Concat(lines[1..]));
      assert Concat(lines) == x + "\n" + Concat(lines[1..]);
    }
  }

  /** `str.rstrip("\n")`: every trailing "\n" removed. */
  function RStripNewlines(line: string): (r: string)
    ensures |r| <= |line|
    decreases |line|
  {
    if line != [] && line[|line| - 1] == '\n' then RStripNewlines(line[..|line| - 1]) else line
  }

  /**
   * `rstrip("\n")` removes the trailing newlines and nothing else: the result
   * is a prefix of the line, does not end in "\n", and only newlines were cut off.
   */
  lemma {:induction false} RStripNewlinesSpec(line: string)
    ensures var r := RStripNewlines(line);
      && r <= line
      && (r == [] || r[|r| - 1] != '\n')
      && forall i | |r| <= i < |line| :: line[i] == '\n'
    decreases |line|
  {
    if line != [] && line[|line| - 1] == '\n' {
      var init := line[..|line| - 1];
      RStripNewlinesSpec(init);
      var r := RStripNewlines(init);
      assert r <= init && init <= line;
      forall i | |r| <= i < |line| ensures line[i] == '\n' {
        if i < |init| {
          assert line[i] == init[i];
        }
      }
    }
  }

  /** Stripping twice is stripping once. */
  lemma RStripNewlinesIdempotent(line: string)
    ensures RStripNewlines(RStripNewlines(line)) == RStripNewlines(line)
  {
    RStripNewlinesSpec(line);
  }

  /** A line ending in exactly one newline is cleaned to what precedes that newline. */
  lemma RStripOneNewline(x: string)
    requires x == [] || x[|x| - 1] != '\n'
    ensures RStripNewlines(x + "\n") == x
  {
    assert (x + "\n")[..|x|] == x;
  }
}
