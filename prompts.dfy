/**
 * The two re-prompting questions of the assistant: `ask_yes_no`, which
 * accepts "yes" or "no" in any letter case and with surrounding white space,
 * and `get_valid_question_count`, which accepts a whole number from 1 to the
 * size of the bank. Each reads its replies from a finite stream of user input.
 */
module Prompts {
  import opened Options

  /** `str.isspace()` for one character: the characters Python's `strip()` removes. */
  predicate IsSpace(c: char)
  {
    || ('\t' <= c <= '\r')
    || ('\U{1C}' <= c <= ' ')
    || c == '\U{85}' || c == '\U{A0}' || c == '\U{1680}'
    || ('\U{2000}' <= c <= '\U{200A}')
    || c == '\U{2028}' || c == '\U{2029}' || c == '\U{202F}' || c == '\U{205F}' || c == '\U{3000}'
  }

  /** Every character is white space. */
  predicate AllSpace(s: string)
  {
    forall i | 0 <= i < |s| :: IsSpace(s[i])
  }

  /** `str.lstrip()`. */
  function StripLeft(s: string): (r: string)
    decreases |s|
  {
    if s != [] && IsSpace(s[0]) then StripLeft(s[1..]) else s
  }

  /** `str.rstrip()`. */
  function StripRight(s: string): (r: string)
    decreases |s|
  {
    if s != [] && IsSpace(s[|s| - 1]) then StripRight(s[..|s| - 1]) else s
  }

  /** `str.strip()`. */
  function Strip(s: string): (r: string)
  {
    StripRight(StripLeft(s))
  }

  /** `lstrip()` removes the white space at the front and nothing else. */
  lemma {:induction false} StripLeftSpec(s: string)
    ensures var r := StripLeft(s);
      && |r| <= |s| && r == s[|s| - |r|..]
      && AllSpace(s[..|s| - |r|])
      && (r == [] || !IsSpace(r[0]))
    decreases |s|
  {
    if s != [] && IsSpace(s[0]) {
      StripLeftSpec(s[1..]);
      var r := StripLeft(s[1..]);
      assert s[1..][..|s| - 1 - |r|] == s[1..|s| - |r|];
      assert s[..|s| - |r|] == [s[0]] + s[1..|s| - |r|];
    }
  }

  /** `rstrip()` removes the white space at the end and nothing else. */
  lemma {:induction false} StripRightSpec(s: string)
    ensures var r := StripRight(s);
      && r <= s
      && AllSpace(s[|r|..])
      && (r == [] || !IsSpace(r[|r| - 1]))
    decreases |s|
  {
    if s != [] && IsSpace(s[|s| - 1]) {
      StripRightSpec(s[..|s| - 1]);
      var r := StripRight(s[..|s| - 1]);
      assert s[|r|..] == s[..|s| - 1][|r|..] + [s[|s| - 1]];
    }
  }

  /**
   * `strip()` cuts white space off both ends and nothing else: what remains is
   * a contiguous part of the input, with white space only before and after it,
   * and it neither starts nor ends with white space.
   */
  lemma StripSpec(s: string)
    ensures var r := Strip(s);
      && (r == [] || (!IsSpace(r[0]) && !IsSpace(r[|r| - 1])))
      && exists k :: 0 <= k <= |s| - |r| && r == s[k..k + |r|] && AllSpace(s[..k]) && AllSpace(s[k + |r|..])
  {
    var l := StripLeft(s);
    StripLeftSpec(s);
    StripRightSpec(l);
    var r := StripRight(l);
    var k := |s| - |l|;
    assert r == s[k..k + |r|];
    assert s[k + |r|..] == l[|r|..];
    if r != [] {
      assert r[0] == l[0];
    }
  }

  /** `str.lower()` for one character, on the ASCII letters. */
  function LowerChar(c: char): (l: char)
    ensures 'A' <= c <= 'Z' ==> l as int == c as int + 32
    ensures !('A' <= c <= 'Z') ==> l == c
  {
    if 'A' <= c <= 'Z' then (c as int + 32) as char else c
  }

  /** `str.lower()`, on the ASCII letters. */
  function Lower(s: string): (r: string)
    ensures |r| == |s|
    decreases |s|
  {
    if s == [] then [] else [LowerChar(s[0])] + Lower(s[1..])
  }

  /** `lower()` works character by character. */
  lemma {:induction false} LowerAt(s: string, i: nat)
    requires i < |s|
    ensures Lower(s)[i] == LowerChar(s[i])
    decreases i
  {
    if i > 0 {
      LowerAt(s[1..], i - 1);
    }
  }

  /** The reply as `ask_yes_no` compares it: `reply.strip().lower()`. */
  function Normalise(reply: string): string
  {
    Lower(Strip(reply))
  }

  /** What one reply to the yes/no question means: yes, no, or neither (ask again). */
  function Classify(reply: string): (answer: Option<bool>)
  {
    var normalised := Normalise(reply);
    if normalised == "yes" then Some(true)
    else if normalised == "no" then Some(false)
    else None
  }

  /**
   * `ask_yes_no`: reads replies until one means yes or no. The answer is that
   * of the first such reply; every reply before it was rejected. When the
   * input ends first there is no answer.
   */
  method AskYesNo(replies: seq<string>) returns (r: Reply<bool>)
    ensures r.Answered? ==>
      && 0 < r.used <= |replies|
      && Classify(replies[r.used - 1]) == Some(r.value)
      && forall j | 0 <= j < r.used - 1 :: Classify(replies[j]) == None
    ensures r.EndOfInput? <==> forall j | 0 <= j < |replies| :: Classify(replies[j]) == None
  {
    var i := 0;
    while i < |replies|
      invariant 0 <= i <= |replies|
      invariant forall j | 0 <= j < i :: Classify(replies[j]) == None
    {
      var answer := Classify(replies[i]);
      if answer.Some? {
        return Answered(answer.value, i + 1);
      }
      i := i + 1;
    }
    return EndOfInput;
  }

  /** The range `get_valid_question_count` accepts. */
  predicate ValidCount(value: int, maxPairs: int)
  {
    1 <= value <= maxPairs
  }

  /**
   * `get_valid_question_count`: reads replies until one is a whole number in
   * [1, maxPairs]. A reply is the number `int()` parsed from the text typed,
   * or `None` where `int()` raised `ValueError`.
   */
  method GetValidQuestionCount(maxPairs: nat, replies: seq<Option<int>>) returns (r: Reply<int>)
    ensures r.Answered? ==>
      && 0 < r.used <= |replies|
      && replies[r.used - 1] == Some(r.value)
      && ValidCount(r.value, maxPairs)
      && forall j | 0 <= j < r.used - 1 :: !(replies[j].Some? && ValidCount(replies[j].value, maxPairs))
    ensures r.EndOfInput? <==>
      forall j | 0 <= j < |replies| :: !(replies[j].Some? && ValidCount(replies[j].value, maxPairs))
  {
    var i := 0;
    while i < |replies|
      invariant 0 <= i <= |replies|
      invariant forall j | 0 <= j < i :: !(replies[j].Some? && ValidCount(replies[j].value, maxPairs))
    {
      if replies[i].Some? {
        var value := replies[i].value;
        if 1 <= value <= maxPairs {
          return Answered(value, i + 1);
        }
      }
      i := i + 1;
    }
    return EndOfInput;
  }

  /** White space around a reply does not change what `strip()` gives. */
  lemma StripPadding(front: string, s: string, back: string)
    requires AllSpace(front) && AllSpace(back)
    ensures Strip(front + s + back) == Strip(s)
  {
    StripLeftPadding(front, s + back);
    assert front + s + back == front + (s + back);
    if AllSpace(s) {
      StripLeftAllSpace(s + back);
      StripLeftAllSpace(s);
    } else {
      StripLeftAppend(s, back);
      StripRightPadding(StripLeft(s), back);
    }
  }

  /** Leading white space is all removed. */
  lemma {:induction false} StripLeftPadding(front: string, s: string)
    requires AllSpace(front)
    ensures StripLeft(front + s) == StripLeft(s)
    decreases |front|
  {
    if front != [] {
      assert IsSpace(front[0]) && (front + s)[0] == front[0];
      assert (front + s)[1..] == front[1..] + s;
      assert StripLeft(front + s) == StripLeft(front[1..] + s);
      StripLeftPadding(front[1..], s);
    } else {
      assert front + s == s;
    }
  }

  /** A string of white space strips to nothing. */
  lemma {:induction false} StripLeftAllSpace(s: string)
    requires AllSpace(s)
    ensures StripLeft(s) == []
    decreases |s|
  {
    if s != [] {
      StripLeftAllSpace(s[1..]);
    }
  }

  /** Left stripping of a string with some non-space character ignores what follows it. */
  lemma {:induction false} StripLeftAppend(s: string, back: string)
    requires !AllSpace(s)
    ensures StripLeft(s + back) == StripLeft(s) + back
    decreases |s|
  {
    if IsSpace(s[0]) {
      assert (s + back)[1..] == s[1..] + back;
      StripLeftAppend(s[1..], back);
    }
  }

  /** Trailing white space is all removed. */
  lemma {:induction false} StripRightPadding(s: string, back: string)
    requires AllSpace(back)
    ensures StripRight(s + back) == StripRight(s)
    decreases |back|
  {
    if back != [] {
      var init := back[..|back| - 1];
      assert IsSpace(back[|back| - 1]) && (s + back)[|s + back| - 1] == back[|back| - 1];
      assert (s + back)[..|s + back| - 1] == s + init;
      assert StripRight(s + back) == StripRight(s + init);
      StripRightPadding(s, init);
    } else {
      assert s + back == s;
    }
  }

  /** The replies read as yes: "yes" in any letter case, possibly padded with white space. */
  lemma ClassifyYes(reply: string)
    ensures var t := Strip(reply);
      Classify(reply) == Some(true) <==>
        |t| == 3 && (t[0] == 'y' || t[0] == 'Y') && (t[1] == 'e' || t[1] == 'E') && (t[2] == 's' || t[2] == 'S')
  {
    LowerWord(Strip(reply), "yes");
  }

  /** The replies read as no: "no" in any letter case, possibly padded with white space. */
  lemma ClassifyNo(reply: string)
    ensures var t := Strip(reply);
      Classify(reply) == Some(false) <==> |t| == 2 && (t[0] == 'n' || t[0] == 'N') && (t[1] == 'o' || t[1] == 'O')
  {
    var t := Strip(reply);
    assert Classify(reply) == Some(false) <==> Lower(t) == "no";
    LowerWord(t, "no");
  }

  /** A string lowers to a lower-case word exactly when it is that word with some letters upper-cased. */
  lemma {:induction false} LowerWord(t: string, word: string)
    requires forall i | 0 <= i < |word| :: 'a' <= word[i] <= 'z'
    ensures Lower(t) == word <==>
      |t| == |word| && forall i | 0 <= i < |t| :: t[i] == word[i] || t[i] as int == word[i] as int - 32
    decreases |t|
  {
    if t != [] && word != [] {
      LowerWord(t[1..], word[1..]);
      LowerLetter(t[0], word[0]);
      assert Lower(t) == [LowerChar(t[0])] + Lower(t[1..]);
      assert word == [word[0]] + word[1..];
      if |t| == |word| && forall i | 0 <= i < |t| :: t[i] == word[i] || t[i] as int == word[i] as int - 32 {
        forall i | 0 <= i < |t[1..]| ensures t[1..][i] == word[1..][i] || t[1..][i] as int == word[1..][i] as int - 32 {
          assert t[1..][i] == t[i + 1] && word[1..][i] == word[i + 1];
        }
      }
      if Lower(t) == word {
        forall i | 0 <= i < |t| ensures t[i] == word[i] || t[i] as int == word[i] as int - 32 {
          if i > 0 {
            assert t[i] == t[1..][i - 1] && word[i] == word[1..][i - 1];
          }
        }
      }
    }
  }

  /** One character lowers to a lower-case letter exactly when it is that letter or its upper case. */
  lemma LowerLetter(c: char, w: char)
    requires 'a' <= w <= 'z'
    ensures LowerChar(c) == w <==> c == w || c as int == w as int - 32
  {
  }
}
