/** Reference-answer normalisation of the multiple-choice evaluation script:
    split_multi_answer (separator ';', a period added to every answer) and
    format_best. */
module TfqaAnswers {
  import opened PyStr
  import opened PyErrors
  import opened AnswerPieces

  /** The loop body's treatment of one kept answer: under close, a period
      is appended unless the answer already ends with one. */
  function Closed(a: string, close: bool): (r: string)
    requires a != []
    ensures |a| <= |r| <= |a| + 1 && r[..|a|] == a
    ensures close ==> r[|r| - 1] == '.'
    ensures !close ==> r == a
    ensures r == a <==> !close || a[|a| - 1] == '.'
  {
    if close && a[|a| - 1] != '.' then a + "." else a
  }

  /** Closed applied to each kept answer, in order. */
  function CloseAll(kept: seq<string>, close: bool): (r: seq<string>)
    requires forall j :: 0 <= j < |kept| ==> kept[j] != []
    ensures |r| == |kept|
    ensures forall j :: 0 <= j < |kept| ==> r[j] == Closed(kept[j], close)
  {
    if kept == [] then [] else CloseAll(kept[..|kept| - 1], close) + [Closed(kept[|kept| - 1], close)]
  }

  /** The shape of every answer split_multi_answer returns. */
  predicate IsReferenceAnswer(a: string, close: bool) {
    IsTrimmedAnswer(a) && (close ==> a[|a| - 1] == '.')
  }

  /** split_multi_answer(ans, sep, close): the stripped cell is split at sep;
      each piece is stripped, empty ones are skipped, and under close a period
      is appended to those that lack one. */
  method SplitMultiAnswer(ans: string, sep: char, close: bool) returns (splitAnswers: seq<string>)
    ensures var kept := Kept(Split(Strip(ans), sep));
      && |splitAnswers| == |kept|
      && forall j :: 0 <= j < |kept| ==> splitAnswers[j] == Closed(kept[j], close)
    ensures |splitAnswers| <= Count(Strip(ans), sep) + 1
    ensures forall j :: 0 <= j < |splitAnswers| ==> IsReferenceAnswer(splitAnswers[j], close)
    ensures AllSpace(ans) ==> splitAnswers == []
  {
    var answers := Split(Strip(ans), sep);
    splitAnswers := [];
    for i := 0 to |answers|
      invariant splitAnswers == CloseAll(Kept(answers[..i]), close)
    {
      var a := Strip(answers[i]);
      CloseAllStep(answers, i, close);
      if |a| > 0 {
        if close {
          if a[|a| - 1] != '.' {
            splitAnswers := splitAnswers + [a + "."];
          } else {
            splitAnswers := splitAnswers + [a];
          }
        } else {
          splitAnswers := splitAnswers + [a];
        }
      }
    }
    assert answers[..|answers|] == answers;
    SplitAnswersShape(ans, sep, close);
  }

  /** What the answers of a cell look like, and that a blank cell has none. */
  lemma SplitAnswersShape(ans: string, sep: char, close: bool)
    ensures var answers := CloseAll(Kept(Split(Strip(ans), sep)), close);
      && |answers| <= Count(Strip(ans), sep) + 1
      && (forall j :: 0 <= j < |answers| ==> IsReferenceAnswer(answers[j], close))
      && (AllSpace(ans) ==> answers == [])
  {
    var stripped := Strip(ans);
    var kept := Kept(Split(stripped, sep));
    assert |CloseAll(kept, close)| <= Count(stripped, sep) + 1 by { SplitCount(stripped, sep); }
    assert forall j :: 0 <= j < |kept| ==> IsReferenceAnswer(CloseAll(kept, close)[j], close) by {
      forall j | 0 <= j < |kept| ensures IsReferenceAnswer(CloseAll(kept, close)[j], close) {
        ClosedIsReference(kept[j], close);
      }
    }
    assert AllSpace(ans) ==> CloseAll(kept, close) == [] by {
      if AllSpace(ans) {
        BlankHasNoAnswers(ans, sep);
      }
    }
  }

  /** A cell of whitespace only yields no answers. */
  lemma BlankHasNoAnswers(ans: string, sep: char)
    requires AllSpace(ans)
    ensures Kept(Split(Strip(ans), sep)) == []
  {
    assert Strip(ans) == [] by { StripEmpty(ans); }
    assert Split([], sep) == [[]];
    assert Kept([[]]) == Kept([]) + [];
  }

  /** One more piece adds at most one closed answer, at the end. */
  lemma CloseAllStep(pieces: seq<string>, i: nat, close: bool)
    requires i < |pieces|
    ensures var a := Strip(pieces[i]);
      CloseAll(Kept(pieces[..i + 1]), close)
        == CloseAll(Kept(pieces[..i]), close) + (if a == [] then [] else [Closed(a, close)])
  {
    KeptStep(pieces, i);
    var kept := Kept(pieces[..i]);
    var a := Strip(pieces[i]);
    if a != [] {
      assert (kept + [a])[..|kept|] == kept;
    }
  }

  /** A trimmed answer stays a reference answer after Closed. */
  lemma ClosedIsReference(a: string, close: bool)
    requires IsTrimmedAnswer(a)
    ensures IsReferenceAnswer(Closed(a, close), close)
  {
  }

  /** format_best(best_ans, close): the stripped answer, with a period
      appended under close unless it already ends with one. Indexing the
      last character of an empty string raises IndexError, so under close
      a blank answer is an error. */
  function FormatBest(bestAns: string, close: bool): (r: Result<string>)
    ensures r.Err? <==> close && Strip(bestAns) == []
    ensures r.Err? ==> r.error == IndexError
    ensures !close ==> r == Ok(Strip(bestAns))
    ensures close && r.Ok? ==>
      && r.value != [] && r.value[|r.value| - 1] == '.'
      && (r.value == Strip(bestAns) <==> Strip(bestAns)[|Strip(bestAns)| - 1] == '.')
      && (r.value == Strip(bestAns) || r.value == Strip(bestAns) + ".")
    ensures r.Ok? ==> NoOuterSpace(r.value)
  {
    var best := Strip(bestAns);
    if close then
      if best == [] then Err(IndexError)
      else if best[|best| - 1] != '.' then
        var closed := best + ".";
        assert closed[0] == best[0] && closed[|closed| - 1] == '.' && closed[..|best|] == best;
        Ok(closed)
      else Ok(best)
    else Ok(best)
  }

  /** An answer already in the formatted shape is left as it is. */
  lemma FormatBestFixed(best: string, close: bool)
    requires NoOuterSpace(best)
    requires close ==> best != [] && best[|best| - 1] == '.'
    ensures FormatBest(best, close) == Ok(best)
  {
    StripTrimmed(best);
  }

  /** Formatting an already formatted best answer changes nothing. */
  lemma FormatBestIdempotent(bestAns: string, close: bool)
    requires FormatBest(bestAns, close).Ok?
    ensures FormatBest(FormatBest(bestAns, close).value, close) == FormatBest(bestAns, close)
  {
    FormatBestFixed(FormatBest(bestAns, close).value, close);
  }
}
