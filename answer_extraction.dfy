/** Reading a numeric answer out of a model completion with the pattern
    `#### (\-?[0-9\.\,]+)`, and comparing it with a reference answer. */
module AnswerExtraction {
  import opened PyStr
  import opened PyErrors

  /** The value returned when the completion holds no answer. */
  const InvalidAns: string := "[invalid]"

  /** A character of the class [0-9\.\,]. */
  predicate IsNumChar(c: char) {
    '0' <= c <= '9' || c == '.' || c == ','
  }

  /** A character an extracted answer may hold: one of -0123456789. */
  predicate IsAnswerChar(c: char) {
    '0' <= c <= '9' || c == '.' || c == '-'
  }

  /** Text made of answer characters, with a minus sign at most in front. */
  predicate IsAnswerText(r: string) {
    forall i :: 0 <= i < |r| ==> IsAnswerChar(r[i]) && (r[i] == '-' ==> i == 0)
  }

  /** The end of the longest run of [0-9.,] starting at i: the greedy `+`. */
  function RunEnd(s: string, i: nat): (e: nat)
    requires i <= |s|
    ensures i <= e <= |s|
    ensures forall k :: i <= k < e ==> IsNumChar(s[k])
    ensures e < |s| ==> !IsNumChar(s[e])
    decreases |s| - i
  {
    if i < |s| && IsNumChar(s[i]) then RunEnd(s, i + 1) else i
  }

  /** The capture group of the pattern when a match starts at position p,
      if one does. The optional '-' is tried first; when no class character
      follows it the engine falls back to the empty alternative, which then
      fails on the '-' itself. */
  function MatchAt(s: string, p: nat): (m: Option<string>)
    ensures m.Some? ==>
      && p + 5 < |s| && s[p..p + 5] == "#### "
      && p + 5 + |m.value| <= |s| && m.value == s[p + 5..p + 5 + |m.value|]
      && m.value != [] && (m.value[0] == '-' || IsNumChar(m.value[0]))
      && (m.value[0] == '-' ==> |m.value| >= 2)
      && (forall k :: 1 <= k < |m.value| ==> IsNumChar(m.value[k]))
    ensures m.Some? ==> p + 5 + |m.value| == |s| || !IsNumChar(s[p + 5 + |m.value|])
    ensures p + 5 < |s| && s[p..p + 5] == "#### " && IsNumChar(s[p + 5]) ==> m.Some?
    ensures p + 6 < |s| && s[p..p + 5] == "#### " && s[p + 5] == '-' && IsNumChar(s[p + 6]) ==> m.Some?
  {
    if p + 5 <= |s| && s[p..p + 5] == "#### " then
      var g := p + 5;
      var d := if g < |s| && s[g] == '-' then g + 1 else g;
      var e := RunEnd(s, d);
      if d < e then Some(s[g..e]) else None
    else None
  }

  /** re.search from position p on: the leftmost position at or after p
      where the pattern matches. */
  function SearchFrom(s: string, p: nat): (m: Option<nat>)
    ensures m.Some? ==>
      && p <= m.value <= |s| && MatchAt(s, m.value).Some?
      && forall q :: p <= q < m.value ==> MatchAt(s, q).None?
    ensures m.None? ==> forall q :: p <= q <= |s| ==> MatchAt(s, q).None?
    decreases |s| + 1 - p
  {
    if p > |s| then None
    else if MatchAt(s, p).Some? then Some(p)
    else SearchFrom(s, p + 1)
  }

  /** str.replace(c, ""): every occurrence of c removed. */
  function RemoveAll(s: string, c: char): (r: string)
    ensures |r| == |s| - Count(s, c)
    ensures forall x :: x in r <==> x in s && x != c
    ensures s != [] && s[0] != c ==> r != [] && r[0] == s[0]
  {
    if s == [] then []
    else (if s[0] == c then [] else [s[0]]) + RemoveAll(s[1..], c)
  }

  /** Removal works piece by piece, so the characters that stay keep their
      order and multiplicity. */
  lemma {:induction false} RemoveAllConcat(a: string, b: string, c: char)
    ensures RemoveAll(a + b, c) == RemoveAll(a, c) + RemoveAll(b, c)
  {
    if a != [] {
      assert (a + b)[0] == a[0] && (a + b)[1..] == a[1..] + b;
      RemoveAllConcat(a[1..], b, c);
    } else {
      assert a + b == b;
    }
  }

  /** A string without c is left as it is. */
  lemma {:induction false} RemoveAllAbsent(s: string, c: char)
    requires c !in s
    ensures RemoveAll(s, c) == s
  {
    if s != [] {
      assert c !in s[1..];
      RemoveAllAbsent(s[1..], c);
    }
  }

  /** extract_answer_from_output(completion): the leftmost match's group,
      stripped and with its commas removed, or "[invalid]" without a match. */
  function ExtractAnswerFromOutput(completion: string): (r: string)
    ensures r == InvalidAns <==> forall p :: 0 <= p <= |completion| ==> MatchAt(completion, p).None?
    ensures r != InvalidAns ==> ',' !in r && IsAnswerText(r)
  {
    match SearchFrom(completion, 0)
    case Some(p) =>
      var g := MatchAt(completion, p).value;
      StripTrimmed(g);
      var r := RemoveAll(Strip(g), ',');
      GroupGivesAnswerText(g);
      assert r != InvalidAns by { assert r == [] || r[0] != InvalidAns[0]; }
      r
    case None => InvalidAns
  }

  /** Removing the commas from a capture group leaves answer text. */
  lemma GroupGivesAnswerText(g: string)
    requires g != [] && (g[0] == '-' || IsNumChar(g[0]))
    requires forall k :: 1 <= k < |g| ==> IsNumChar(g[k])
    ensures IsAnswerText(RemoveAll(g, ','))
  {
    var tail := RemoveAll(g[1..], ',');
    var r := RemoveAll(g, ',');
    assert r == (if g[0] == ',' then [] else [g[0]]) + tail;
    forall i | 0 <= i < |tail| ensures IsAnswerChar(tail[i]) && tail[i] != '-' {
      assert tail[i] in tail;
      assert tail[i] in g[1..];
    }
  }

  /** The answer comes from the leftmost match: whenever a match starts at p
      and none starts before it, the answer is p's group without commas. */
  lemma ExtractLeftmost(completion: string, p: nat)
    requires MatchAt(completion, p).Some?
    requires forall q :: 0 <= q < p ==> MatchAt(completion, q).None?
    ensures ExtractAnswerFromOutput(completion) == RemoveAll(MatchAt(completion, p).value, ',')
  {
    // SearchFrom's leftmost clause and the requires leave no other position.
    var m := SearchFrom(completion, 0);
    assert m.Some? && m.value == p;
    StripTrimmed(MatchAt(completion, p).value);
  }

  /** is_correct(model_answer, answer): equality of the two answers, after
      an assert that the reference answer is not "[invalid]". */
  function IsCorrect(modelAnswer: string, answer: string): (r: Result<bool>)
    ensures r.Err? <==> answer == InvalidAns
    ensures r.Err? ==> r.error == AssertionError
    ensures r.Ok? ==> (r.value <==> modelAnswer == answer)
  {
    if answer == InvalidAns then Err(AssertionError) else Ok(modelAnswer == answer)
  }

  /** A completion judged correct held a match: an answer that was never
      found cannot be counted as correct. */
  lemma CorrectNeedsMatch(completion: string, answer: string)
    requires IsCorrect(ExtractAnswerFromOutput(completion), answer) == Ok(true)
    ensures exists p :: 0 <= p <= |completion| && MatchAt(completion, p).Some?
  {
    assert ExtractAnswerFromOutput(completion) != InvalidAns;
  }
}
