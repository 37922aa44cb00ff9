/** The parts of Python's str type the evaluation scripts rely on:
    isspace, strip, split with a one-character separator, count and
    rpartition, together with the facts about them the other modules use. */
module PyStr {

  /** str.isspace() of a single character: the characters Python's
      strip() removes when called without arguments. */
  predicate IsSpace(c: char) {
    || c == ' '
    || '\U{9}' <= c <= '\U{D}'       // \t \n \v \f \r
    || '\U{1C}' <= c <= '\U{1F}'     // file, group, record and unit separators
    || c == '\U{85}' || c == '\U{A0}' || c == '\U{1680}'
    || '\U{2000}' <= c <= '\U{200A}'
    || c == '\U{2028}' || c == '\U{2029}' || c == '\U{202F}'
    || c == '\U{205F}' || c == '\U{3000}'
  }

  predicate AllSpace(s: string) {
    forall i :: 0 <= i < |s| ==> IsSpace(s[i])
  }

  /** Neither the first nor the last character is whitespace. */
  predicate NoOuterSpace(s: string) {
    s == [] || (!IsSpace(s[0]) && !IsSpace(s[|s| - 1]))
  }

  /** str.rstrip(): drop the trailing whitespace. */
  function RStrip(s: string): (r: string)
    ensures |r| <= |s| && r == s[..|r|]
    ensures r == [] || !IsSpace(r[|r| - 1])
  {
    if s != [] && IsSpace(s[|s| - 1]) then RStrip(s[..|s| - 1]) else s
  }

  /** str.strip(): drop the leading whitespace, then the trailing whitespace. */
  function Strip(s: string): (r: string)
    ensures |r| <= |s|
    ensures NoOuterSpace(r)
  {
    if s != [] && IsSpace(s[0]) then Strip(s[1..])
    else
      var r := RStrip(s);
      assert r != [] ==> r[0] == s[0];
      r
  }

  /** RStrip leaves nothing exactly when every character is whitespace. */
  lemma {:induction false} RStripEmpty(s: string)
    ensures RStrip(s) == [] <==> AllSpace(s)
  {
    if s != [] && IsSpace(s[|s| - 1]) {
      var init := s[..|s| - 1];
      RStripEmpty(init);
      assert AllSpace(s) <==> AllSpace(init) by {
        assert forall i :: 0 <= i < |init| ==> s[i] == init[i];
      }
    }
  }

  /** Strip leaves nothing exactly when every character is whitespace. */
  lemma {:induction false} StripEmpty(s: string)
    ensures Strip(s) == [] <==> AllSpace(s)
  {
    if s != [] {
      if IsSpace(s[0]) {
        StripEmpty(s[1..]);
        assert AllSpace(s) <==> AllSpace(s[1..]) by {
          assert forall i :: 0 < i < |s| ==> s[i] == s[1..][i - 1];
        }
      } else {
        RStripEmpty(s);
      }
    }
  }

  /** What rstrip drops is whitespace. */
  lemma {:induction false} RStripDropsSpace(s: string)
    ensures AllSpace(s[|RStrip(s)|..])
  {
    if s != [] && IsSpace(s[|s| - 1]) {
      var init := s[..|s| - 1];
      RStripDropsSpace(init);
      assert s[|RStrip(s)|..] == init[|RStrip(s)|..] + [s[|s| - 1]];
    }
  }

  /** r sits in s at k with only whitespace before and after it. */
  predicate TrimmedInfix(s: string, r: string, k: nat) {
    k + |r| <= |s| && r == s[k..k + |r|] && AllSpace(s[..k]) && AllSpace(s[k + |r|..])
  }

  /** A leading whitespace character moves a trimmed infix one place right. */
  lemma TrimmedInfixShift(s: string, r: string, j: nat)
    requires s != [] && IsSpace(s[0]) && TrimmedInfix(s[1..], r, j)
    ensures TrimmedInfix(s, r, j + 1)
  {
    var tail := s[1..];
    assert s[..j + 1] == [s[0]] + tail[..j];
    assert s[j + 1..j + 1 + |r|] == tail[j..j + |r|];
    assert s[j + 1 + |r|..] == tail[j + |r|..];
  }

  /** Strip removes only outer whitespace: its result is the infix s[k..k + |r|]
      of the input, and everything before and after that infix is whitespace.
      The lemma returns k, the number of leading characters removed. */
  lemma {:induction false} StripInfix(s: string) returns (k: nat)
    ensures TrimmedInfix(s, Strip(s), k)
  {
    if s != [] && IsSpace(s[0]) {
      var j := StripInfix(s[1..]);
      TrimmedInfixShift(s, Strip(s[1..]), j);
      k := j + 1;
    } else {
      k := 0;
      RStripDropsSpace(s);
      assert s[..0] == [];
    }
  }

  /** Strip leaves a string that has no outer whitespace unchanged. */
  lemma StripTrimmed(s: string)
    requires NoOuterSpace(s)
    ensures Strip(s) == s
  {
  }

  /** Stripping twice is stripping once. */
  lemma StripIdempotent(s: string)
    ensures Strip(Strip(s)) == Strip(s)
  {
    StripTrimmed(Strip(s));
  }

  /** The number of occurrences of c in s: str.count with a one-character argument. */
  function Count(s: string, c: char): (n: nat)
    ensures n <= |s|
  {
    if s == [] then 0 else (if s[0] == c then 1 else 0) + Count(s[1..], c)
  }

  /** c occurs in s exactly when its count is positive. */
  lemma {:induction false} CountZero(s: string, c: char)
    ensures Count(s, c) == 0 <==> c !in s
  {
    if s != [] {
      CountZero(s[1..], c);
      assert s == [s[0]] + s[1..];
    }
  }

  /** sep.join(pieces), the inverse of Split. */
  function Join(pieces: seq<string>, sep: char): string
    requires |pieces| > 0
  {
    if |pieces| == 1 then pieces[0] else pieces[0] + [sep] + Join(pieces[1..], sep)
  }

  /** str.split(sep) for a one-character separator: the pieces between the
      separators, empty ones included, so there is always one more piece
      than there are separators. */
  function Split(s: string, sep: char): (pieces: seq<string>)
    ensures 0 < |pieces| <= |s| + 1
  {
    if s == [] then [[]] else Prepend(s[0], sep, Split(s[1..], sep))
  }

  /** The pieces of [x] + s, given the pieces of s: a separator opens a new
      empty first piece, any other character joins the first piece. */
  function Prepend(x: char, sep: char, rest: seq<string>): (pieces: seq<string>)
    requires |rest| > 0
    ensures |pieces| == |rest| + (if x == sep then 1 else 0)
  {
    if x == sep then [[]] + rest else [[x] + rest[0]] + rest[1..]
  }

  /** Prepending a character only touches the first piece. */
  lemma PrependAppend(x: char, sep: char, head: seq<string>, tail: seq<string>)
    requires |head| > 0
    ensures Prepend(x, sep, head + tail) == Prepend(x, sep, head) + tail
  {
    if x != sep {
      assert (head + tail)[0] == head[0] && (head + tail)[1..] == head[1..] + tail;
    }
  }

  /** There is one more piece than there are separators. */
  lemma {:induction false} SplitCount(s: string, sep: char)
    ensures |Split(s, sep)| == Count(s, sep) + 1
  {
    if s != [] {
      SplitCount(s[1..], sep);
    }
  }

  /** Split and Join are inverse: no piece holds the separator, and joining
      the pieces back with it gives the original string. */
  lemma {:induction false} SplitJoin(s: string, sep: char)
    ensures forall i :: 0 <= i < |Split(s, sep)| ==> sep !in Split(s, sep)[i]
    ensures Join(Split(s, sep), sep) == s
  {
    if s != [] {
      var rest := Split(s[1..], sep);
      SplitJoin(s[1..], sep);
      var pieces := Split(s, sep);
      if s[0] == sep {
        assert pieces[1..] == rest;
        assert Join(pieces, sep) == [] + [sep] + Join(rest, sep);
      } else {
        assert pieces[1..] == rest[1..];
        if |rest| > 1 {
          calc {
            Join(pieces, sep);
            [s[0]] + rest[0] + [sep] + Join(rest[1..], sep);
            [s[0]] + (rest[0] + [sep] + Join(rest[1..], sep));
            [s[0]] + Join(rest, sep);
          }
        }
        assert s == [s[0]] + s[1..];
      }
    }
  }

  /** A string without the separator is a single piece. */
  lemma {:induction false} SplitNoSeparator(s: string, sep: char)
    requires sep !in s
    ensures Split(s, sep) == [s]
  {
    if s != [] {
      assert sep !in s[1..];
      SplitNoSeparator(s[1..], sep);
      assert [s[0]] + s[1..] == s;
    }
  }

  /** Splitting distributes over a separator: the pieces of p + sep + q are
      the pieces of p followed by the pieces of q. */
  lemma {:induction false} SplitConcat(p: string, q: string, sep: char)
    ensures Split(p + [sep] + q, sep) == Split(p, sep) + Split(q, sep)
  {
    if p == [] {
      assert p + [sep] + q == [sep] + q;
      SplitCons(sep, q, sep);
    } else {
      var x, t := p[0], p[1..];
      assert p == [x] + t && p + [sep] + q == [x] + (t + [sep] + q);
      SplitConcat(t, q, sep);
      SplitCons(x, t + [sep] + q, sep);
      SplitCons(x, t, sep);
      PrependAppend(x, sep, Split(t, sep), Split(q, sep));
    }
  }

  /** One step of Split on a string given as its first character and the rest. */
  lemma SplitCons(x: char, t: string, sep: char)
    ensures Split([x] + t, sep) == Prepend(x, sep, Split(t, sep))
  {
    assert ([x] + t)[0] == x && ([x] + t)[1..] == t;
  }

  /** The first piece of a split is the text before the first separator. */
  lemma SplitFirst(s: string, sep: char)
    ensures |Split(s, sep)[0]| <= |s| && Split(s, sep)[0] == s[..|Split(s, sep)[0]|]
    ensures sep !in Split(s, sep)[0]
    ensures |Split(s, sep)[0]| < |s| ==> s[|Split(s, sep)[0]|] == sep
    ensures |Split(s, sep)[0]| == |s| <==> sep !in s
  {
    var pieces := Split(s, sep);
    SplitJoin(s, sep);
    if |pieces| > 1 {
      assert s == pieces[0] + [sep] + Join(pieces[1..], sep);
      assert sep in s by { assert s[|pieces[0]|] == sep; }
    } else {
      assert s == pieces[0];
    }
  }

  /** str.rpartition(c)[2]: the text after the last occurrence of c, or the
      whole string when c does not occur. */
  function AfterLast(s: string, c: char): (r: string)
    ensures |r| <= |s| && r == s[|s| - |r|..]
    ensures c !in r
    ensures |r| < |s| ==> s[|s| - |r| - 1] == c
  {
    if s == [] || s[|s| - 1] == c then []
    else
      var r := AfterLast(s[..|s| - 1], c) + [s[|s| - 1]];
      assert r == s[|s| - |r|..];
      r
  }
}
