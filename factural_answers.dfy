/** Reference-answer splitting of the factual-recall evaluation script:
    split_multi_answer with separator ',', which never adds a period and
    always discards the piece after the last separator. Its format_best is
    the same as the multiple-choice script's, TfqaAnswers.FormatBest. */
module FacturalAnswers {
  import opened PyStr
  import opened AnswerPieces
  import TfqaAnswers

  /** The answers of an already stripped cell: the kept pieces among all
      pieces except the last. */
  function Answers(stripped: string, sep: char): (r: seq<string>)
    ensures |r| <= Count(stripped, sep)
    ensures forall j :: 0 <= j < |r| ==> IsTrimmedAnswer(r[j])
    ensures sep !in stripped ==> r == []
  {
    var pieces := Split(stripped, sep);
    assert |pieces| == Count(stripped, sep) + 1 by { SplitCount(stripped, sep); }
    assert sep !in stripped ==> pieces[..|pieces| - 1] == [] by {
      if sep !in stripped {
        SplitNoSeparator(stripped, sep);
      }
    }
    Kept(pieces[..|pieces| - 1])
  }

  /** split_multi_answer(ans, sep, close): split the stripped cell at sep and,
      over every piece but the last, keep the non-empty stripped ones. Both
      branches of the close test append the piece as it is, so close has no
      effect on the result. */
  method SplitMultiAnswer(ans: string, sep: char, close: bool) returns (splitAnswers: seq<string>)
    ensures splitAnswers == Answers(Strip(ans), sep)
  {
    var answers := Split(Strip(ans), sep);
    var allButLast := answers[..|answers| - 1];
    splitAnswers := [];
    for i := 0 to |allButLast|
      invariant splitAnswers == Kept(allButLast[..i])
    {
      KeptStep(allButLast, i);
      var a := Strip(allButLast[i]);
      if |a| > 0 {
        if close {
          splitAnswers := splitAnswers + [a];
        } else {
          splitAnswers := splitAnswers + [a];
        }
      }
    }
    assert allButLast[..|allButLast|] == allButLast;
  }

  /** The piece after the last separator never contributes: the answers of
      p + sep + q, with no separator in q, are the kept pieces of p alone. */
  lemma LastPieceDiscarded(p: string, q: string, sep: char)
    requires sep !in q
    ensures Answers(p + [sep] + q, sep) == Kept(Split(p, sep))
  {
    SplitConcat(p, q, sep);
    SplitNoSeparator(q, sep);
    var pieces := Split(p + [sep] + q, sep);
    assert pieces[..|pieces| - 1] == Split(p, sep);
  }

  /** For a cell that ends in the separator, the comma variant agrees with
      the multiple-choice variant's pieces before any period is added. */
  lemma TrailingSeparatorKeepsAll(p: string, sep: char)
    ensures Answers(p + [sep], sep) == Kept(Split(p, sep))
  {
    assert p + [sep] == p + [sep] + [];
    LastPieceDiscarded(p, [], sep);
  }

  /** format_best appends at most one character to the stripped answer, ends
      it in a full stop and is idempotent; a blank answer is an IndexError. */
  lemma FormatBestAppendsAtMostOne(bestAns: string)
    ensures TfqaAnswers.FormatBest(bestAns, true).Err? <==> Strip(bestAns) == []
    ensures var r := TfqaAnswers.FormatBest(bestAns, true);
      r.Ok? ==>
        && |Strip(bestAns)| <= |r.value| <= |Strip(bestAns)| + 1
        && r.value[..|Strip(bestAns)|] == Strip(bestAns)
        && r.value[|r.value| - 1] == '.'
    ensures var r := TfqaAnswers.FormatBest(bestAns, true);
      r.Ok? ==> TfqaAnswers.FormatBest(r.value, true) == r
  {
    if TfqaAnswers.FormatBest(bestAns, true).Ok? {
      TfqaAnswers.FormatBestIdempotent(bestAns, true);
    }
  }
}
