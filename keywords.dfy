/**
 * Verification of the keywords the AI proposes for the Library fill-in-the-blank
 * game: at most five are considered, and a keyword survives only when its
 * cleaned form occurs in the lower-cased text.
 */
module Keywords {
  import opened Str

  /** The AI list is cut to this many entries before checking. */
  const MaxKeywords: nat := 5

  /** `blanks[:5]`. */
  function Candidates(blanks: seq<string>): seq<string> {
    if |blanks| <= MaxKeywords then blanks else blanks[..MaxKeywords]
  }

  /** The form compared with the text: `blank.strip().lower().rstrip(".,?!")`. */
  function CheckForm(blank: string): string {
    RStrip(Lower(Strip(blank)), TrailingPunct)
  }

  /** The keyword test: a non-empty cleaned form that occurs in the lower-cased text. */
  predicate Passes(blank: string, lowerText: string) {
    var clean := CheckForm(blank);
    clean != [] && Contains(lowerText, clean)
  }

  /** The stripped originals of the keywords that pass, in list order. */
  function Keep(lowerText: string, blanks: seq<string>): seq<string> {
    if blanks == [] then []
    else (if Passes(blanks[0], lowerText) then [Strip(blanks[0])] else [])
         + Keep(lowerText, blanks[1..])
  }

  /** The list stored as the session's answer key. */
  function VerifiedBlanks(fullText: string, blanks: seq<string>): seq<string> {
    Keep(Lower(fullText), Candidates(blanks))
  }

  function StripAll(blanks: seq<string>): seq<string> {
    seq(|blanks|, i requires 0 <= i < |blanks| => Strip(blanks[i]))
  }

  /** `a` is `b` with some entries left out, the rest in their original order. */
  predicate IsSubsequence(a: seq<string>, b: seq<string>) decreases |b| {
    a == [] || (b != [] && (IsSubsequence(a, b[1..]) || (a[0] == b[0] && IsSubsequence(a[1..], b[1..]))))
  }

  /** A passing keyword, once stripped, is stripped and still passes. */
  lemma StripKeepsPassing(blank: string, lowerText: string)
    requires Passes(blank, lowerText)
    ensures Stripped(Strip(blank)) && Passes(Strip(blank), lowerText)
  {
    StripSpec(blank);
    assert CheckForm(Strip(blank)) == CheckForm(blank);
  }

  /** The filter keeps no more entries than it is given. */
  lemma {:induction false} KeepLength(lowerText: string, blanks: seq<string>)
    ensures |Keep(lowerText, blanks)| <= |blanks|
  {
    if blanks != [] {
      KeepLength(lowerText, blanks[1..]);
    }
  }

  /** How many entries pass the check, counting repeated entries each time. */
  function PassCount(lowerText: string, blanks: seq<string>): nat {
    if blanks == [] then 0
    else (if Passes(blanks[0], lowerText) then 1 else 0) + PassCount(lowerText, blanks[1..])
  }

  /** The filter keeps one entry per passing input, so a repeated keyword is kept as often as it appears. */
  lemma {:induction false} KeepCount(lowerText: string, blanks: seq<string>)
    ensures |Keep(lowerText, blanks)| == PassCount(lowerText, blanks)
  {
    if blanks != [] {
      KeepCount(lowerText, blanks[1..]);
    }
  }

  /** Every entry is stripped and passes the check against `lowerText`. */
  predicate AllVerified(words: seq<string>, lowerText: string) {
    forall j :: 0 <= j < |words| ==> Stripped(words[j]) && Passes(words[j], lowerText)
  }

  lemma AllVerifiedCons(head: string, rest: seq<string>, lowerText: string)
    requires Stripped(head) && Passes(head, lowerText) && AllVerified(rest, lowerText)
    ensures AllVerified([head] + rest, lowerText)
  {
    var words := [head] + rest;
    forall j | 0 <= j < |words| ensures Stripped(words[j]) && Passes(words[j], lowerText) {
      if j > 0 {
        assert words[j] == rest[j - 1];
      }
    }
  }

  /** Every kept entry is stripped and passes the check. */
  lemma {:induction false} KeepSound(lowerText: string, blanks: seq<string>)
    ensures AllVerified(Keep(lowerText, blanks), lowerText)
  {
    if blanks != [] {
      KeepSound(lowerText, blanks[1..]);
      if Passes(blanks[0], lowerText) {
        StripKeepsPassing(blanks[0], lowerText);
        AllVerifiedCons(Strip(blanks[0]), Keep(lowerText, blanks[1..]), lowerText);
      }
    }
  }

  /** The kept entries are the stripped inputs in their original order, some left out. */
  lemma {:induction false} KeepOrdered(lowerText: string, blanks: seq<string>)
    ensures IsSubsequence(Keep(lowerText, blanks), StripAll(blanks))
  {
    if blanks != [] {
      var kept, all := Keep(lowerText, blanks), StripAll(blanks);
      var rest := Keep(lowerText, blanks[1..]);
      KeepOrdered(lowerText, blanks[1..]);
      assert all[1..] == StripAll(blanks[1..]);
      if Passes(blanks[0], lowerText) {
        assert kept == [Strip(blanks[0])] + rest;
        assert kept[0] == all[0] && kept[1..] == rest;
      } else {
        assert kept == rest;
      }
    }
  }

  /** Every passing entry is kept. */
  lemma {:induction false} KeepComplete(lowerText: string, blanks: seq<string>)
    ensures forall i :: 0 <= i < |blanks| && Passes(blanks[i], lowerText) ==>
              Strip(blanks[i]) in Keep(lowerText, blanks)
  {
    if blanks != [] {
      var tail := blanks[1..];
      var kept, rest := Keep(lowerText, blanks), Keep(lowerText, tail);
      KeepComplete(lowerText, tail);
      assert kept == (if Passes(blanks[0], lowerText) then [Strip(blanks[0])] else []) + rest;
      assert forall x :: x in rest ==> x in kept;
      forall i | 1 <= i < |blanks| && Passes(blanks[i], lowerText)
        ensures Strip(blanks[i]) in kept
      {
        assert tail[i - 1] == blanks[i];
      }
    }
  }

  /** Nothing is kept exactly when no entry passes. */
  lemma {:induction false} KeepEmpty(lowerText: string, blanks: seq<string>)
    ensures Keep(lowerText, blanks) == [] <==> forall i :: 0 <= i < |blanks| ==> !Passes(blanks[i], lowerText)
  {
    if blanks != [] {
      var tail := blanks[1..];
      KeepEmpty(lowerText, tail);
      assert forall i :: 1 <= i < |blanks| ==> blanks[i] == tail[i - 1];
      if Passes(blanks[0], lowerText) {
        assert Keep(lowerText, blanks)[0] == Strip(blanks[0]);
      } else {
        assert Keep(lowerText, blanks) == Keep(lowerText, tail);
      }
    }
  }

  /**
   * The verified list: at most five keywords, in the order the AI gave them,
   * each stripped with a cleaned form found in the lower-cased text; every
   * one of the first five that passes is in it, as often as it passes, and it
   * is empty exactly when none of them passes.
   */
  lemma VerifiedBlanksSpec(fullText: string, blanks: seq<string>)
    ensures |VerifiedBlanks(fullText, blanks)| <= MaxKeywords
    ensures AllVerified(VerifiedBlanks(fullText, blanks), Lower(fullText))
    ensures IsSubsequence(VerifiedBlanks(fullText, blanks), StripAll(Candidates(blanks)))
    ensures forall i :: 0 <= i < |blanks| && i < MaxKeywords && Passes(blanks[i], Lower(fullText)) ==>
              Strip(blanks[i]) in VerifiedBlanks(fullText, blanks)
    ensures |VerifiedBlanks(fullText, blanks)| == PassCount(Lower(fullText), Candidates(blanks))
    ensures VerifiedBlanks(fullText, blanks) == [] <==>
              forall i :: 0 <= i < |blanks| && i < MaxKeywords ==> !Passes(blanks[i], Lower(fullText))
  {
    var c := Candidates(blanks);
    KeepLength(Lower(fullText), c);
    KeepCount(Lower(fullText), c);
    KeepSound(Lower(fullText), c);
    KeepOrdered(Lower(fullText), c);
    KeepComplete(Lower(fullText), c);
    KeepEmpty(Lower(fullText), c);
    assert forall i :: 0 <= i < |blanks| && i < MaxKeywords ==> c[i] == blanks[i];
  }

  /** The loop of main.py:372-389 that builds `verified_blanks`. */
  method VerifyBlanks(fullText: string, blanks: seq<string>) returns (verified: seq<string>)
    ensures verified == VerifiedBlanks(fullText, blanks)
    ensures |verified| <= MaxKeywords
    ensures AllVerified(verified, Lower(fullText))
  {
    var fullTextLower := Lower(fullText);
    var wordsToCheck := Candidates(blanks);
    verified := [];
    for i := 0 to |wordsToCheck|
      invariant verified + Keep(fullTextLower, wordsToCheck[i..]) == Keep(fullTextLower, wordsToCheck)
    {
      var blank := wordsToCheck[i];
      ghost var rest := Keep(fullTextLower, wordsToCheck[i + 1..]);
      assert wordsToCheck[i..][1..] == wordsToCheck[i + 1..];
      var cleanBlank := CheckForm(blank);
      if cleanBlank != [] && Contains(fullTextLower, cleanBlank) {
        assert Keep(fullTextLower, wordsToCheck[i..]) == [Strip(blank)] + rest;
        assert (verified + [Strip(blank)]) + rest == verified + ([Strip(blank)] + rest);
        verified := verified + [Strip(blank)];
      } else {
        assert Keep(fullTextLower, wordsToCheck[i..]) == rest;
      }
    }
    assert wordsToCheck[|wordsToCheck|..] == [];
    VerifiedBlanksSpec(fullText, blanks);
  }
}
