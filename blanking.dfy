/**
 * Blanking of the Library text: each verified keyword, in order, has its first
 * case-insensitive literal occurrence replaced by the placeholder, and the
 * placeholders of the result are then counted.
 */
module Blanking {
  import opened Wrappers
  import opened Str
  import opened Keywords

  const Placeholder: string := "[.....]"

  /** The literal, case-insensitive pattern `word` matches `text` at `i`. */
  predicate MatchesAt(text: string, word: string, i: int) {
    0 <= i && i + |word| <= |text| && Lower(text[i..i + |word|]) == Lower(word)
  }

  predicate IsFirstMatch(text: string, word: string, i: int) {
    MatchesAt(text, word, i) && forall j :: 0 <= j < i ==> !MatchesAt(text, word, j)
  }

  /** The leftmost match at or after `from`, as a regular-expression search finds it. */
  function FindFrom(text: string, word: string, from: nat): (r: Option<nat>)
    ensures r.Some? ==> from <= r.value && MatchesAt(text, word, r.value)
    ensures r.Some? ==> forall j :: from <= j < r.value ==> !MatchesAt(text, word, j)
    ensures r.None? ==> forall j :: from <= j ==> !MatchesAt(text, word, j)
    decreases |text| - from
  {
    if from + |word| > |text| then None
    else if MatchesAt(text, word, from) then Some(from)
    else FindFrom(text, word, from + 1)
  }

  /** The `(new_text, count)` pair of `re.subn`. */
  datatype Substitution = Substitution(text: string, count: nat)

  /** `text` with the `len` characters at `i` replaced by the placeholder. */
  function Splice(text: string, i: nat, len: nat): string
    requires i + len <= |text|
  {
    text[..i] + Placeholder + text[i + len..]
  }

  /**
   * `re.subn(re.escape(word), Placeholder, text, count=1, flags=re.IGNORECASE)`:
   * replaces the first case-insensitive literal occurrence of `word`, if any.
   */
  function SubstituteFirst(text: string, word: string): (r: Substitution)
    ensures r.count <= 1
    ensures r.count == 0 <==> forall i :: !MatchesAt(text, word, i)
    ensures r.count == 0 ==> r.text == text
    ensures forall i :: IsFirstMatch(text, word, i) ==> r == Substitution(Splice(text, i, |word|), 1)
  {
    match FindFrom(text, word, 0)
    case None => Substitution(text, 0)
    case Some(i) => Substitution(Splice(text, i, |word|), 1)
  }

  /** Substitutes every keyword in turn, each on the text the earlier ones left. */
  function BlankAll(text: string, words: seq<string>): (r: Substitution)
    ensures r.count <= |words|
    decreases |words|
  {
    if words == [] then Substitution(text, 0)
    else
      var first := SubstituteFirst(text, words[0]);
      var rest := BlankAll(first.text, words[1..]);
      Substitution(rest.text, first.count + rest.count)
  }

  /** Blanking one more keyword continues from where the earlier ones stopped. */
  lemma {:induction false} BlankAllSnoc(text: string, words: seq<string>, word: string)
    ensures BlankAll(text, words + [word]).text == SubstituteFirst(BlankAll(text, words).text, word).text
    ensures BlankAll(text, words + [word]).count
         == BlankAll(text, words).count + SubstituteFirst(BlankAll(text, words).text, word).count
    decreases |words|
  {
    if words == [] {
      assert [] + [word] == [word];
    } else {
      var first := SubstituteFirst(text, words[0]);
      assert (words + [word])[0] == words[0];
      assert (words + [word])[1..] == words[1..] + [word];
      BlankAllSnoc(first.text, words[1..], word);
    }
  }

  /** The loop of main.py:433-453 that builds `text_with_blanks` and `blanks_created`. */
  method BlankOut(text: string, answers: seq<string>) returns (textWithBlanks: string, blanksCreated: nat)
    ensures Substitution(textWithBlanks, blanksCreated) == BlankAll(text, answers)
    ensures blanksCreated <= |answers|
  {
    textWithBlanks := text;
    blanksCreated := 0;
    for i := 0 to |answers|
      invariant Substitution(textWithBlanks, blanksCreated) == BlankAll(text, answers[..i])
    {
      BlankAllSnoc(text, answers[..i], answers[i]);
      assert answers[..i + 1] == answers[..i] + [answers[i]];
      var sub := SubstituteFirst(textWithBlanks, answers[i]);
      if sub.count > 0 {
        textWithBlanks := sub.text;
        blanksCreated := blanksCreated + 1;
      }
    }
    assert answers[..|answers|] == answers;
  }

  predicate StartsWithPlaceholder(s: string) {
    |Placeholder| <= |s| && s[..|Placeholder|] == Placeholder
  }

  /** `s.count(Placeholder)`: non-overlapping occurrences, scanning from the left. */
  function PlaceholderCount(s: string): (n: nat)
    ensures |Placeholder| * n <= |s|
    decreases |s|
  {
    if |s| < |Placeholder| then 0
    else if StartsWithPlaceholder(s) then 1 + PlaceholderCount(s[|Placeholder|..])
    else PlaceholderCount(s[1..])
  }

  /** The positions at or after `from` where the placeholder occurs, every one of them. */
  function OccurrencesFrom(s: string, from: nat): nat
    decreases |s| - from
  {
    if from + |Placeholder| > |s| then 0
    else (if OccursAt(s, Placeholder, from) then 1 else 0) + OccurrencesFrom(s, from + 1)
  }

  /** No occurrence starts inside another one: the placeholder cannot overlap itself. */
  lemma {:induction false} NoOccurrenceInside(s: string, i: nat, j: nat)
    requires OccursAt(s, Placeholder, i) && i < j <= i + |Placeholder|
    ensures OccurrencesFrom(s, j) == OccurrencesFrom(s, i + |Placeholder|)
    decreases i + |Placeholder| - j
  {
    if j < i + |Placeholder| && j + |Placeholder| <= |s| {
      assert s[j] == s[i..i + |Placeholder|][j - i] == Placeholder[j - i];
      assert s[j..j + |Placeholder|][0] == s[j];
      NoOccurrenceInside(s, i, j + 1);
    }
  }

  lemma {:induction false} PlaceholderCountFrom(s: string, from: nat)
    requires from <= |s|
    ensures PlaceholderCount(s[from..]) == OccurrencesFrom(s, from)
    decreases |s| - from
  {
    var t := s[from..];
    if |t| >= |Placeholder| {
      assert t[..|Placeholder|] == s[from..from + |Placeholder|];
      if StartsWithPlaceholder(t) {
        assert t[|Placeholder|..] == s[from + |Placeholder|..];
        PlaceholderCountFrom(s, from + |Placeholder|);
        NoOccurrenceInside(s, from, from + 1);
      } else {
        assert t[1..] == s[from + 1..];
        PlaceholderCountFrom(s, from + 1);
      }
    }
  }

  /** The left-to-right count finds every occurrence of the placeholder in `s`. */
  lemma PlaceholderCountSpec(s: string)
    ensures PlaceholderCount(s) == OccurrencesFrom(s, 0)
  {
    PlaceholderCountFrom(s, 0);
    assert s[0..] == s;
  }

  predicate NoBrackets(s: string) {
    forall k :: 0 <= k < |s| ==> s[k] != '[' && s[k] != ']'
  }

  /** Every bracket of `t` is part of a placeholder. */
  predicate WellMarked(t: string)
    decreases |t|
  {
    if t == [] then true
    else if StartsWithPlaceholder(t) then WellMarked(t[|Placeholder|..])
    else t[0] != '[' && t[0] != ']' && WellMarked(t[1..])
  }

  /** A keyword with no brackets that is not made of dots alone. */
  predicate Blankable(word: string) {
    NoBrackets(word) && exists k :: 0 <= k < |word| && word[k] != '.'
  }

  lemma MatchedChar(text: string, word: string, i: nat, k: nat)
    requires MatchesAt(text, word, i) && k < |word|
    ensures LowerChar(text[i + k]) == LowerChar(word[k])
  {
    assert Lower(text[i..i + |word|])[k] == Lower(word)[k];
  }

  /** A match of a bracket-free keyword covers no bracket of the text. */
  lemma MatchedPlain(text: string, word: string, i: nat)
    requires MatchesAt(text, word, i) && NoBrackets(word)
    ensures forall k :: i <= k < i + |word| ==> text[k] != '[' && text[k] != ']'
  {
    forall k | i <= k < i + |word| ensures text[k] != '[' && text[k] != ']' {
      MatchedChar(text, word, i, k - i);
    }
  }

  lemma MatchShift(text: string, word: string, i: nat, d: nat)
    requires MatchesAt(text, word, i) && d <= i
    ensures MatchesAt(text[d..], word, i - d)
  {
    assert text[d..][i - d..i - d + |word|] == text[i..i + |word|];
  }

  /** A blankable keyword cannot match inside or across a leading placeholder. */
  lemma MatchAvoidsPlaceholder(text: string, word: string, i: nat)
    requires StartsWithPlaceholder(text) && Blankable(word) && MatchesAt(text, word, i)
    ensures i >= |Placeholder|
  {
    assert text[0] == '[' && text[6] == ']';
    assert forall k :: 1 <= k < 6 ==> text[k] == text[..7][k] == '.';
    if i < |Placeholder| {
      if i == 0 {
        MatchedChar(text, word, 0, 0);
      } else if i + |word| >= |Placeholder| {
        MatchedChar(text, word, i, 6 - i);
      } else {
        var k :| 0 <= k < |word| && word[k] != '.';
        MatchedChar(text, word, i, k);
      }
      assert false;
    }
  }

  lemma SkipPlain(t: string)
    requires t != [] && t[0] != '['
    ensures PlaceholderCount(t) == PlaceholderCount(t[1..])
    ensures WellMarked(t) ==> t[0] != ']' && WellMarked(t[1..])
  {
    assert !StartsWithPlaceholder(t) by {
      if |Placeholder| <= |t| { assert t[..|Placeholder|][0] == t[0]; }
    }
  }

  /** Dropping a bracket-free prefix keeps the marks and the placeholder count. */
  lemma {:induction false} DropPlain(t: string, m: nat)
    requires WellMarked(t) && m <= |t|
    requires forall k :: 0 <= k < m ==> t[k] != '['
    ensures WellMarked(t[m..]) && PlaceholderCount(t[m..]) == PlaceholderCount(t)
  {
    if m > 0 {
      SkipPlain(t);
      DropPlain(t[1..], m - 1);
      assert t[1..][m - 1..] == t[m..];
    }
  }

  lemma PrependPlaceholder(u: string)
    ensures StartsWithPlaceholder(Placeholder + u)
    ensures (Placeholder + u)[|Placeholder|..] == u
    ensures PlaceholderCount(Placeholder + u) == 1 + PlaceholderCount(u)
    ensures WellMarked(u) ==> WellMarked(Placeholder + u)
  {
    assert (Placeholder + u)[..|Placeholder|] == Placeholder;
    assert (Placeholder + u)[|Placeholder|..] == u;
  }

  lemma PrependPlain(c: char, u: string)
    requires c != '[' && c != ']'
    ensures PlaceholderCount([c] + u) == PlaceholderCount(u)
    ensures WellMarked(u) ==> WellMarked([c] + u)
  {
    assert ([c] + u)[1..] == u;
    SkipPlain([c] + u);
  }

  lemma SpliceBehind(t: string, d: nat, i: nat, n: nat)
    requires d <= i && i + n <= |t|
    ensures Splice(t, i, n) == t[..d] + Splice(t[d..], i - d, n)
  {
    assert t[d..][..i - d] == t[d..i];
    assert t[d..][i - d + n..] == t[i + n..];
    assert t[..i] == t[..d] + t[d..i];
  }

  /** Each successful substitution adds exactly one placeholder and destroys none. */
  lemma {:induction false} SpliceAddsOne(t: string, word: string, i: nat)
    requires WellMarked(t) && Blankable(word) && MatchesAt(t, word, i)
    ensures WellMarked(Splice(t, i, |word|))
    ensures PlaceholderCount(Splice(t, i, |word|)) == PlaceholderCount(t) + 1
    decreases |t|, 1
  {
    if StartsWithPlaceholder(t) {
      SpliceBehindPlaceholder(t, word, i);
    } else {
      SpliceBehindPlain(t, word, i);
    }
  }

  lemma {:induction false} SpliceBehindPlaceholder(t: string, word: string, i: nat)
    requires WellMarked(t) && Blankable(word) && MatchesAt(t, word, i)
    requires StartsWithPlaceholder(t)
    ensures WellMarked(Splice(t, i, |word|))
    ensures PlaceholderCount(Splice(t, i, |word|)) == PlaceholderCount(t) + 1
    decreases |t|, 0
  {
    var n := |word|;
    MatchAvoidsPlaceholder(t, word, i);
    var u := t[|Placeholder|..];
    MatchShift(t, word, i, |Placeholder|);
    SpliceAddsOne(u, word, i - |Placeholder|);
    SpliceBehind(t, |Placeholder|, i, n);
    PrependPlaceholder(Splice(u, i - |Placeholder|, n));
  }

  lemma {:induction false} SpliceBehindPlain(t: string, word: string, i: nat)
    requires WellMarked(t) && Blankable(word) && MatchesAt(t, word, i)
    requires !StartsWithPlaceholder(t)
    ensures WellMarked(Splice(t, i, |word|))
    ensures PlaceholderCount(Splice(t, i, |word|)) == PlaceholderCount(t) + 1
    decreases |t|, 0
  {
    if i == 0 {
      SpliceAtStart(t, word);
    } else {
      var n := |word|;
      var u := t[1..];
      SkipPlain(t);
      MatchShift(t, word, i, 1);
      SpliceAddsOne(u, word, i - 1);
      SpliceBehind(t, 1, i, n);
      assert t[..1] == [t[0]];
      PrependPlain(t[0], Splice(u, i - 1, n));
    }
  }

  lemma SpliceAtStart(t: string, word: string)
    requires WellMarked(t) && Blankable(word) && MatchesAt(t, word, 0)
    ensures WellMarked(Splice(t, 0, |word|))
    ensures PlaceholderCount(Splice(t, 0, |word|)) == PlaceholderCount(t) + 1
  {
    MatchedPlain(t, word, 0);
    DropPlain(t, |word|);
    PrependPlaceholder(t[|word|..]);
  }

  /**
   * Blanking blankable keywords in a well-marked text: the placeholders of the
   * result are those already there plus one per keyword that was replaced.
   */
  lemma {:induction false} BlankAllCounts(text: string, words: seq<string>)
    requires WellMarked(text)
    requires forall k :: 0 <= k < |words| ==> Blankable(words[k])
    ensures WellMarked(BlankAll(text, words).text)
    ensures PlaceholderCount(BlankAll(text, words).text) == PlaceholderCount(text) + BlankAll(text, words).count
    decreases |words|
  {
    if words != [] {
      var first := SubstituteFirst(text, words[0]);
      var found := FindFrom(text, words[0], 0);
      if found.Some? {
        assert IsFirstMatch(text, words[0], found.value);
        SpliceAddsOne(text, words[0], found.value);
      }
      BlankAllCounts(first.text, words[1..]);
    }
  }

  lemma {:induction false} PlainTextIsMarked(t: string)
    requires NoBrackets(t)
    ensures WellMarked(t) && PlaceholderCount(t) == 0
  {
    if t != [] {
      SkipPlain(t);
      PlainTextIsMarked(t[1..]);
    }
  }

  /** A verified keyword has a character other than a dot. */
  lemma VerifiedHasNonDot(word: string, lowerText: string)
    requires Passes(word, lowerText)
    ensures exists k :: 0 <= k < |word| && word[k] != '.'
  {
    var s := Strip(word);
    var c := CheckForm(word);
    StripSpec(word);
    RStripSpec(Lower(s), TrailingPunct);
    assert c == Lower(s)[..|c|];
    var j := |c| - 1;
    assert c[j] == Lower(s)[j] == LowerChar(s[j]);
    assert s[j] == word[Lead(word) + j];
  }

  /**
   * For a text and keywords without brackets, the final placeholder count equals
   * the number of keywords replaced: the quiz check of main.py:460-462 fails
   * exactly when some verified keyword found nothing to replace.
   */
  lemma QuizCheckDetectsMisses(fullText: string, answers: seq<string>)
    requires NoBrackets(fullText)
    requires forall k :: 0 <= k < |answers| ==> NoBrackets(answers[k]) && Passes(answers[k], Lower(fullText))
    ensures PlaceholderCount(BlankAll(fullText, answers).text) == BlankAll(fullText, answers).count
    ensures PlaceholderCount(BlankAll(fullText, answers).text) == |answers|
        <==> BlankAll(fullText, answers).count == |answers|
  {
    forall k | 0 <= k < |answers| ensures Blankable(answers[k]) {
      VerifiedHasNonDot(answers[k], Lower(fullText));
    }
    PlainTextIsMarked(fullText);
    BlankAllCounts(fullText, answers);
  }

  /** A keyword cannot match where the text does not have its first letter. */
  lemma NoMatchWithoutFirstLetter(text: string, word: string)
    requires word != []
    requires forall j :: 0 <= j <= |text| - |word| ==> LowerChar(text[j]) != LowerChar(word[0])
    ensures forall i :: !MatchesAt(text, word, i)
  {
    forall i | MatchesAt(text, word, i) ensures false {
      MatchedChar(text, word, i, 0);
    }
  }

  lemma BlankTwo(text: string, first: string, second: string)
    ensures BlankAll(text, [first, second]).text
         == SubstituteFirst(SubstituteFirst(text, first).text, second).text
    ensures BlankAll(text, [first, second]).count
         == SubstituteFirst(text, first).count + SubstituteFirst(SubstituteFirst(text, first).text, second).count
  {
    var one := SubstituteFirst(text, first);
    var two := SubstituteFirst(one.text, second);
    assert [first, second][1..] == [second];
    assert [second][1..] == [];
    assert BlankAll(two.text, []) == Substitution(two.text, 0);
    assert BlankAll(one.text, [second]) == Substitution(two.text, two.count);
  }

  lemma NestedFirst()
    ensures SubstituteFirst("kupu-kupu terbang", "kupu-kupu") == Substitution("[.....] terbang", 1)
  {
    var text := "kupu-kupu terbang";
    assert text[0..9] == "kupu-kupu";
    assert IsFirstMatch(text, "kupu-kupu", 0);
    assert Splice(text, 0, 9) == "[.....] terbang";
  }

  lemma NestedSecond()
    ensures SubstituteFirst("[.....] terbang", "kupu") == Substitution("[.....] terbang", 0)
  {
    var t := "[.....] terbang";
    assert forall j :: 0 <= j < |t| ==> t[j] in {'[', '.', ']', ' ', 't', 'e', 'r', 'b', 'a', 'n', 'g'};
    NoMatchWithoutFirstLetter(t, "kupu");
  }

  lemma NestedCount()
    ensures PlaceholderCount("[.....] terbang") == 1
  {
    var rest := " terbang";
    assert "[.....] terbang" == Placeholder + rest;
    assert NoBrackets(rest);
    PrependPlaceholder(rest);
    PlainTextIsMarked(rest);
  }

  /**
   * Two verified keywords where the first contains the second: the first
   * substitution consumes the only occurrence of the second, so one placeholder
   * stands for two answers and the quiz check reports the fault.
   */
  lemma NestedKeywordsFault()
    ensures BlankAll("kupu-kupu terbang", ["kupu-kupu", "kupu"]) == Substitution("[.....] terbang", 1)
    ensures PlaceholderCount(BlankAll("kupu-kupu terbang", ["kupu-kupu", "kupu"]).text) == 1
  {
    BlankTwo("kupu-kupu terbang", "kupu-kupu", "kupu");
    NestedFirst();
    NestedSecond();
    NestedCount();
  }

  lemma LowercaseText()
    ensures Lower("kupu-kupu terbang") == "kupu-kupu terbang"
  {
    var text := "kupu-kupu terbang";
    assert forall j :: 0 <= j < |text| ==> LowerChar(text[j]) == text[j];
  }

  lemma DottedKeywordForm()
    ensures CheckForm("terbang.") == "terbang"
  {
    var word := "terbang.";
    assert forall j :: 0 <= j < |word| ==> LowerChar(word[j]) == word[j];
    assert Lower(word) == word;
    StrippedFixed(word);
    assert RStrip(word, TrailingPunct) == "terbang";
  }

  lemma TextContainsKeyword()
    ensures Contains("kupu-kupu terbang", "terbang")
  {
    var text := "kupu-kupu terbang";
    assert text[10..17] == "terbang";
    assert OccursAt(text, "terbang", 10);
  }

  lemma TrailingDotPasses()
    ensures Passes("terbang.", Lower("kupu-kupu terbang"))
  {
    LowercaseText();
    DottedKeywordForm();
    TextContainsKeyword();
  }

  lemma TrailingDotMissed()
    ensures SubstituteFirst("kupu-kupu terbang", "terbang.") == Substitution("kupu-kupu terbang", 0)
  {
    var text := "kupu-kupu terbang";
    assert forall j :: 0 <= j < 10 ==> text[j] in {'k', 'u', 'p', '-', ' '};
    NoMatchWithoutFirstLetter(text, "terbang.");
  }

  /**
   * A keyword whose trailing dot the check ignores: it passes verification,
   * yet the literal search for it, dot included, finds nothing.
   */
  lemma TrailingDotFault()
    ensures Passes("terbang.", Lower("kupu-kupu terbang"))
    ensures SubstituteFirst("kupu-kupu terbang", "terbang.") == Substitution("kupu-kupu terbang", 0)
  {
    TrailingDotPasses();
    TrailingDotMissed();
  }
}
