/**
 * The exact-match grader shared by the Library and Grammar games: an item is
 * correct when both strings agree after `strip().lower()`, every correct item
 * is worth `100 / n`, and the sum is rounded once, half to even.
 */
module Scoring {
  import opened Str

  /** The comparison of main.py:502 and main.py:603. */
  predicate SameAnswer(user: string, correct: string) {
    Lower(Strip(user)) == Lower(Strip(correct))
  }

  /**
   * What the comparison ignores: whitespace around either the answer or the
   * key, and letter case. Once both are padded cores, they match exactly when
   * the cores differ at most in letter case, whichever side is given first.
   */
  lemma SameAnswerSpec(a: string, w: string, b: string, c: string, k: string, d: string)
    requires forall i :: 0 <= i < |a| ==> a[i] in Whitespace
    requires forall i :: 0 <= i < |b| ==> b[i] in Whitespace
    requires forall i :: 0 <= i < |c| ==> c[i] in Whitespace
    requires forall i :: 0 <= i < |d| ==> d[i] in Whitespace
    requires Stripped(w) && Stripped(k)
    ensures SameAnswer(a + w + b, c + k + d) <==> SameAnswer(c + k + d, a + w + b)
    ensures SameAnswer(a + w + b, c + k + d) <==> Lower(w) == Lower(k)
  {
    StripPadded(a, w, b);
    StripPadded(c, k, d);
  }

  /** The verdict on each item, in order. */
  function Marks(user: seq<string>, correct: seq<string>): (marks: seq<bool>)
    requires |user| == |correct|
    ensures |marks| == |correct|
    ensures forall i :: 0 <= i < |correct| ==> marks[i] == SameAnswer(user[i], correct[i])
  {
    seq(|correct|, i requires 0 <= i < |correct| => SameAnswer(user[i], correct[i]))
  }

  /** The number of `true` verdicts among the first `k`. */
  function CountBelow(marks: seq<bool>, k: nat): (hits: nat)
    requires k <= |marks|
    ensures hits <= k
  {
    if k == 0 then 0 else CountBelow(marks, k - 1) + (if marks[k - 1] then 1 else 0)
  }

  /** How many answers are correct. */
  function CorrectCount(user: seq<string>, correct: seq<string>): nat
    requires |user| == |correct|
  {
    CountBelow(Marks(user, correct), |correct|)
  }

  lemma {:induction false} CountBelowEnds(marks: seq<bool>, k: nat)
    requires k <= |marks|
    ensures CountBelow(marks, k) == k <==> forall i :: 0 <= i < k ==> marks[i]
    ensures CountBelow(marks, k) == 0 <==> forall i :: 0 <= i < k ==> !marks[i]
  {
    if k > 0 {
      CountBelowEnds(marks, k - 1);
    }
  }

  lemma {:induction false} CountBelowMonotone(worse: seq<bool>, better: seq<bool>, k: nat)
    requires k <= |worse| && k <= |better|
    requires forall i :: 0 <= i < k && worse[i] ==> better[i]
    ensures CountBelow(worse, k) <= CountBelow(better, k)
  {
    if k > 0 {
      CountBelowMonotone(worse, better, k - 1);
    }
  }

  /** All answers are correct exactly when the count is `n`, none exactly when it is 0. */
  lemma CorrectCountEnds(user: seq<string>, correct: seq<string>)
    requires |user| == |correct|
    ensures CorrectCount(user, correct) <= |correct|
    ensures CorrectCount(user, correct) == |correct| <==>
              forall i :: 0 <= i < |correct| ==> SameAnswer(user[i], correct[i])
    ensures CorrectCount(user, correct) == 0 <==>
              forall i :: 0 <= i < |correct| ==> !SameAnswer(user[i], correct[i])
  {
    CountBelowEnds(Marks(user, correct), |correct|);
  }

  /** A submission right wherever another one is right has at least as many correct answers. */
  lemma CorrectCountMonotone(worse: seq<string>, better: seq<string>, correct: seq<string>)
    requires |worse| == |better| == |correct|
    requires forall i :: 0 <= i < |correct| && SameAnswer(worse[i], correct[i]) ==> SameAnswer(better[i], correct[i])
    ensures CorrectCount(worse, correct) <= CorrectCount(better, correct)
  {
    CountBelowMonotone(Marks(worse, correct), Marks(better, correct), |correct|);
  }

  lemma MulMono(a: nat, b: nat, c: nat)
    requires a <= b
    ensures a * c <= b * c
  {
  }

  lemma MulSucc(a: nat, c: nat)
    ensures (a + 1) * c == a * c + c
  {
  }

  lemma MulGap(lo: nat, hi: nat, c: nat)
    requires lo < hi
    ensures lo * c + c <= hi * c
    ensures lo + 1 < hi ==> lo * c + 2 * c <= hi * c
  {
    MulSucc(lo, c);
    MulMono(lo + 1, hi, c);
    if lo + 1 < hi {
      MulSucc(lo + 1, c);
      MulMono(lo + 2, hi, c);
    }
  }

  /**
   * Python's `round` applied to `num / den`: the nearest integer, and the even
   * one of the two when `num / den` lies exactly half-way between them.
   */
  function RoundHalfEven(num: nat, den: nat): (r: nat)
    requires den > 0
    ensures 2 * num <= 2 * (r * den) + den && 2 * (r * den) <= 2 * num + den
    ensures 2 * num == 2 * (r * den) + den ==> r % 2 == 0
    ensures 2 * (r * den) == 2 * num + den ==> r % 2 == 0
  {
    var q, rem := num / den, num % den;
    MulSucc(q, den);
    if 2 * rem < den then q
    else if 2 * rem > den then q + 1
    else if q % 2 == 0 then q
    else q + 1
  }

  /** Rounding never moves down as the rounded value moves up. */
  lemma RoundMonotone(a: nat, b: nat, den: nat)
    requires den > 0 && a <= b
    ensures RoundHalfEven(a, den) <= RoundHalfEven(b, den)
  {
    var ra, rb := RoundHalfEven(a, den), RoundHalfEven(b, den);
    if ra > rb {
      MulGap(rb, ra, den);
      assert false;
    }
  }

  /** `round(total_score)` where `total_score` is `hits` items worth `100 / n` each. */
  function TotalScore(hits: nat, n: nat): nat
    requires n > 0
  {
    RoundHalfEven(hits * 100, n)
  }

  /** The total lies between 0 and 100, is 100 when every item is correct and 0 when none is. */
  lemma ScoreRange(hits: nat, n: nat)
    requires 0 < n && hits <= n
    ensures TotalScore(hits, n) <= 100
    ensures hits == n ==> TotalScore(hits, n) == 100
    ensures hits == 0 ==> TotalScore(hits, n) == 0
  {
    RoundMonotone(hits * 100, n * 100, n);
    var top := RoundHalfEven(n * 100, n);
    if top >= 101 {
      MulMono(101, top, n);
    }
    if top <= 99 {
      MulMono(top, 99, n);
    }
    var bottom := RoundHalfEven(0, n);
    if bottom >= 1 {
      MulMono(1, bottom, n);
    }
  }

  /** More correct items never give a lower total. */
  lemma ScoreMonotone(hits1: nat, hits2: nat, n: nat)
    requires 0 < n && hits1 <= hits2
    ensures TotalScore(hits1, n) <= TotalScore(hits2, n)
  {
    RoundMonotone(hits1 * 100, hits2 * 100, n);
  }

  /**
   * With fewer than 200 items the rounding loses nothing at the ends: the total
   * is 100 only when every item is correct and 0 only when none is.
   */
  lemma ScoreEndsExact(hits: nat, n: nat)
    requires 0 < n < 200 && hits <= n
    ensures TotalScore(hits, n) == 100 <==> hits == n
    ensures TotalScore(hits, n) == 0 <==> hits == 0
  {
    ScoreRange(hits, n);
  }

  /** With 200 items one wrong answer still rounds to a full score (99.5 to 100). */
  lemma ScoreRoundsUpAt200()
    ensures TotalScore(199, 200) == 100
  {
    var r := TotalScore(199, 200);
    assert 39800 <= 2 * (r * 200) + 200 && 2 * (r * 200) <= 39800 + 200;
  }

  /**
   * The graded total of a submission: at most 100, exactly 100 when every answer
   * matches and exactly 0 when none does.
   */
  lemma GradeSpec(user: seq<string>, correct: seq<string>)
    requires |user| == |correct| > 0
    ensures TotalScore(CorrectCount(user, correct), |correct|) <= 100
    ensures (forall i :: 0 <= i < |correct| ==> SameAnswer(user[i], correct[i])) ==>
              TotalScore(CorrectCount(user, correct), |correct|) == 100
    ensures (forall i :: 0 <= i < |correct| ==> !SameAnswer(user[i], correct[i])) ==>
              TotalScore(CorrectCount(user, correct), |correct|) == 0
  {
    CorrectCountEnds(user, correct);
    ScoreRange(CorrectCount(user, correct), |correct|);
  }

  /** A submission right wherever another one is right scores at least as much. */
  lemma GradeMonotone(worse: seq<string>, better: seq<string>, correct: seq<string>)
    requires |worse| == |better| == |correct| > 0
    requires forall i :: 0 <= i < |correct| && SameAnswer(worse[i], correct[i]) ==> SameAnswer(better[i], correct[i])
    ensures TotalScore(CorrectCount(worse, correct), |correct|)
         <= TotalScore(CorrectCount(better, correct), |correct|)
  {
    CorrectCountMonotone(worse, better, correct);
    CorrectCountEnds(worse, correct);
    CorrectCountEnds(better, correct);
    ScoreMonotone(CorrectCount(worse, correct), CorrectCount(better, correct), |correct|);
  }

  /** One entry of the Library verdict, numbered from 1. */
  datatype BlankResult = BlankResult(blankIndex: nat, userAnswer: string, correctAnswer: string, isCorrect: bool)

  /** One entry of the Grammar verdict. */
  datatype GrammarResult = GrammarResult(original: string, userCorrection: string, correctSentence: string, isCorrect: bool)

  /** The loop of main.py:497-511: one result per blank, in order, and the rounded total. */
  method GradeLibrary(user: seq<string>, correct: seq<string>) returns (results: seq<BlankResult>, totalScore: nat)
    requires |user| == |correct| > 0
    ensures |results| == |correct|
    ensures forall i :: 0 <= i < |correct| ==>
              results[i] == BlankResult(i + 1, user[i], correct[i], SameAnswer(user[i], correct[i]))
    ensures totalScore == TotalScore(CorrectCount(user, correct), |correct|)
  {
    ghost var marks := Marks(user, correct);
    ghost var expected := seq(|correct|, j requires 0 <= j < |correct| =>
      BlankResult(j + 1, user[j], correct[j], marks[j]));
    results := [];
    var hits := 0;
    for i := 0 to |correct|
      invariant results == expected[..i]
      invariant hits == CountBelow(marks, i)
    {
      var isCorrect := SameAnswer(user[i], correct[i]);
      assert isCorrect == marks[i];
      if isCorrect {
        hits := hits + 1;
      }
      assert expected[..i + 1] == expected[..i] + [expected[i]];
      results := results + [BlankResult(i + 1, user[i], correct[i], isCorrect)];
    }
    assert expected[..|correct|] == expected;
    totalScore := TotalScore(hits, |correct|);
  }

  /** The loop of main.py:598-612; the originals are read by the same index as the answers. */
  method GradeGrammar(original: seq<string>, user: seq<string>, correct: seq<string>)
    returns (results: seq<GrammarResult>, totalScore: nat)
    requires |user| == |correct| > 0 && |original| >= |correct|
    ensures |results| == |correct|
    ensures forall i :: 0 <= i < |correct| ==>
              results[i] == GrammarResult(original[i], user[i], correct[i], SameAnswer(user[i], correct[i]))
    ensures totalScore == TotalScore(CorrectCount(user, correct), |correct|)
  {
    ghost var marks := Marks(user, correct);
    ghost var expected := seq(|correct|, j requires 0 <= j < |correct| =>
      GrammarResult(original[j], user[j], correct[j], marks[j]));
    results := [];
    var hits := 0;
    for i := 0 to |correct|
      invariant results == expected[..i]
      invariant hits == CountBelow(marks, i)
    {
      var isCorrect := SameAnswer(user[i], correct[i]);
      assert isCorrect == marks[i];
      if isCorrect {
        hits := hits + 1;
      }
      assert expected[..i + 1] == expected[..i] + [expected[i]];
      results := results + [GrammarResult(original[i], user[i], correct[i], isCorrect)];
    }
    assert expected[..|correct|] == expected;
    totalScore := TotalScore(hits, |correct|);
  }
}
