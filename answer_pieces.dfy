/** What both split_multi_answer loops keep of the separator-delimited
    pieces of a reference-answer cell: each piece stripped, empty ones
    dropped, order unchanged. */
module AnswerPieces {
  import opened PyStr

  /** A reference answer as the loops keep it: non-empty, no whitespace at either end. */
  predicate IsTrimmedAnswer(a: string) {
    a != [] && NoOuterSpace(a)
  }

  /** The stripped pieces that are not empty, in their original order. */
  function Kept(pieces: seq<string>): (kept: seq<string>)
    ensures |kept| <= |pieces|
    ensures forall j :: 0 <= j < |kept| ==> IsTrimmedAnswer(kept[j])
  {
    if pieces == [] then []
    else
      var last := Strip(pieces[|pieces| - 1]);
      Kept(pieces[..|pieces| - 1]) + (if last == [] then [] else [last])
  }

  /** One more piece adds at most one answer, at the end. */
  lemma KeptStep(pieces: seq<string>, i: nat)
    requires i < |pieces|
    ensures var a := Strip(pieces[i]);
      Kept(pieces[..i + 1]) == Kept(pieces[..i]) + (if a == [] then [] else [a])
  {
    assert pieces[..i + 1][..i] == pieces[..i];
  }

  /** Kept works piece by piece: it distributes over concatenation, so the
      answers of an earlier piece always come before those of a later one. */
  lemma {:induction false} KeptConcat(a: seq<string>, b: seq<string>)
    ensures Kept(a + b) == Kept(a) + Kept(b)
  {
    if b == [] {
      assert a + b == a;
    } else {
      var b' := b[..|b| - 1];
      assert (a + b)[..|a + b| - 1] == a + b';
      assert (a + b)[|a + b| - 1] == b[|b| - 1];
      KeptConcat(a, b');
    }
  }

  /** Every non-empty stripped piece is kept. */
  lemma {:induction false} KeptComplete(pieces: seq<string>, i: nat)
    requires i < |pieces| && Strip(pieces[i]) != []
    ensures Strip(pieces[i]) in Kept(pieces)
  {
    var init := pieces[..|pieces| - 1];
    if i < |pieces| - 1 {
      assert init[i] == pieces[i];
      KeptComplete(init, i);
    }
  }

  /** Every kept answer is the strip of some piece; the lemma returns its index. */
  lemma {:induction false} KeptSound(pieces: seq<string>, x: string) returns (i: nat)
    requires x in Kept(pieces)
    ensures i < |pieces| && Strip(pieces[i]) == x
  {
    var init := pieces[..|pieces| - 1];
    if x in Kept(init) {
      i := KeptSound(init, x);
      assert pieces[i] == init[i];
    } else {
      i := |pieces| - 1;
    }
  }

  /** An answer is kept exactly when it is the non-empty strip of some piece. */
  lemma KeptMembers(pieces: seq<string>, x: string)
    ensures x in Kept(pieces) <==> x != [] && exists i :: 0 <= i < |pieces| && Strip(pieces[i]) == x
  {
    if x in Kept(pieces) {
      var i := KeptSound(pieces, x);
    }
    if x != [] && exists i :: 0 <= i < |pieces| && Strip(pieces[i]) == x {
      var i :| 0 <= i < |pieces| && Strip(pieces[i]) == x;
      KeptComplete(pieces, i);
    }
  }

  /** Splitting at a separator and keeping the answers: the answers of
      p + sep + q are those of p followed by those of q. */
  lemma KeptSplitConcat(p: string, q: string, sep: char)
    ensures Kept(Split(p + [sep] + q, sep)) == Kept(Split(p, sep)) + Kept(Split(q, sep))
  {
    SplitConcat(p, q, sep);
    KeptConcat(Split(p, sep), Split(q, sep));
  }
}
