/**
 * The Python `str` operations the game engine relies on: `isspace`,
 * `lower` and `capitalize` (ASCII letters), `strip` / `rstrip(chars)` and
 * the substring test `p in s`.
 */
module Str {

  /** The characters for which `c.isspace()` holds: what `str.strip()` removes. */
  const Whitespace: set<char> := {
    '\t', '\n', '\U{0B}', '\U{0C}', '\r', '\U{1C}', '\U{1D}', '\U{1E}', '\U{1F}', ' ',
    '\U{85}', '\U{A0}', '\U{1680}', '\U{2000}', '\U{2001}', '\U{2002}', '\U{2003}',
    '\U{2004}', '\U{2005}', '\U{2006}', '\U{2007}', '\U{2008}', '\U{2009}', '\U{200A}',
    '\U{2028}', '\U{2029}', '\U{202F}', '\U{205F}', '\U{3000}'
  }

  /** The characters of `rstrip(".,?!")`. */
  const TrailingPunct: set<char> := {'.', ',', '?', '!'}

  function LowerChar(c: char): char {
    if 'A' <= c <= 'Z' then (c as int + 32) as char else c
  }

  function UpperChar(c: char): char {
    if 'a' <= c <= 'z' then (c as int - 32) as char else c
  }

  /** `s.capitalize()`: the first character upper-cased, the rest lower-cased. */
  function Capitalize(s: string): string {
    if s == [] then [] else [UpperChar(s[0])] + Lower(s[1..])
  }

  /** `s.lower()`, restricted to ASCII letters. */
  function Lower(s: string): string {
    seq(|s|, i requires 0 <= i < |s| => LowerChar(s[i]))
  }

  /**
   * `lower()` works character by character: it keeps the length, leaves no
   * upper-case letter, changes nothing the second time, and distributes over
   * concatenation.
   */
  lemma LowerSpec(s: string, t: string)
    ensures |Lower(s)| == |s|
    ensures forall i :: 0 <= i < |s| ==> !('A' <= Lower(s)[i] <= 'Z')
    ensures Lower(Lower(s)) == Lower(s)
    ensures Lower(s + t) == Lower(s) + Lower(t)
  {
    assert Lower(s + t) == Lower(s) + Lower(t);
  }

  /** The left half of `s.strip()`: drops the longest prefix made of `chars`. */
  function LStrip(s: string, chars: set<char>): string {
    if s != [] && s[0] in chars then LStrip(s[1..], chars) else s
  }

  /** The left strip keeps a suffix, removes only `chars`, and stops at the first other character. */
  lemma LStripSpec(s: string, chars: set<char>)
    ensures |LStrip(s, chars)| <= |s| && LStrip(s, chars) == s[|s| - |LStrip(s, chars)|..]
    ensures forall i :: 0 <= i < |s| - |LStrip(s, chars)| ==> s[i] in chars
    ensures LStrip(s, chars) == [] || LStrip(s, chars)[0] !in chars
  {
    LStripSuffix(s, chars);
    LStripDrops(s, chars);
    LStripStops(s, chars);
  }

  lemma {:induction false} LStripSuffix(s: string, chars: set<char>)
    ensures |LStrip(s, chars)| <= |s| && LStrip(s, chars) == s[|s| - |LStrip(s, chars)|..]
  {
    if s != [] && s[0] in chars {
      LStripSuffix(s[1..], chars);
    }
  }

  lemma {:induction false} LStripDrops(s: string, chars: set<char>)
    ensures |LStrip(s, chars)| <= |s|
    ensures forall i :: 0 <= i < |s| - |LStrip(s, chars)| ==> s[i] in chars
  {
    if s != [] && s[0] in chars {
      var t := s[1..];
      LStripDrops(t, chars);
      forall i | 1 <= i < |s| - |LStrip(s, chars)| ensures s[i] in chars {
        assert s[i] == t[i - 1];
      }
    }
  }

  lemma {:induction false} LStripStops(s: string, chars: set<char>)
    ensures LStrip(s, chars) == [] || LStrip(s, chars)[0] !in chars
  {
    if s != [] && s[0] in chars {
      LStripStops(s[1..], chars);
    }
  }

  /** `s.rstrip(chars)`: drops the longest suffix made of `chars`. */
  function RStrip(s: string, chars: set<char>): string {
    if s != [] && s[|s| - 1] in chars then RStrip(s[..|s| - 1], chars) else s
  }

  /** `rstrip` keeps a prefix, removes only `chars`, and stops at the last other character. */
  lemma {:induction false} RStripSpec(s: string, chars: set<char>)
    ensures |RStrip(s, chars)| <= |s| && RStrip(s, chars) == s[..|RStrip(s, chars)|]
    ensures forall i :: |RStrip(s, chars)| <= i < |s| ==> s[i] in chars
    ensures RStrip(s, chars) == [] || RStrip(s, chars)[|RStrip(s, chars)| - 1] !in chars
  {
    if s != [] && s[|s| - 1] in chars {
      RStripSpec(s[..|s| - 1], chars);
    }
  }

  /** `s.strip()`. */
  function Strip(s: string): string {
    RStrip(LStrip(s, Whitespace), Whitespace)
  }

  /** Neither end of `s` is whitespace: what `strip()` returns. */
  predicate Stripped(s: string) {
    s == [] || (s[0] !in Whitespace && s[|s| - 1] !in Whitespace)
  }

  predicate OccursAt(s: string, p: string, i: int) {
    0 <= i && i + |p| <= |s| && s[i..i + |p|] == p
  }

  /** `p in s`. */
  predicate Contains(s: string, p: string) {
    exists i :: 0 <= i <= |s| - |p| && OccursAt(s, p, i)
  }

  /** Stripping a string that has nothing to strip leaves it as it is. */
  lemma StrippedFixed(s: string)
    requires Stripped(s)
    ensures Strip(s) == s
  {
    assert LStrip(s, Whitespace) == s;
  }

  /**
   * `strip()` returns a slice of its input that starts at `Lead(s)`, with only
   * whitespace around it and nothing left to strip again.
   */
  lemma StripSpec(s: string)
    ensures Stripped(Strip(s))
    ensures Strip(Strip(s)) == Strip(s)
    ensures Lead(s) + |Strip(s)| <= |s| && Strip(s) == s[Lead(s)..Lead(s) + |Strip(s)|]
    ensures forall i :: 0 <= i < Lead(s) ==> s[i] in Whitespace
    ensures forall i :: Lead(s) + |Strip(s)| <= i < |s| ==> s[i] in Whitespace
  {
    var l := LStrip(s, Whitespace);
    var r := RStrip(l, Whitespace);
    LStripSpec(s, Whitespace);
    RStripSpec(l, Whitespace);
    assert r != [] ==> r[0] == l[0];
    StrippedFixed(r);
  }

  /** The left strip removes a leading run of `chars` and stops at the first other character. */
  lemma {:induction false} LStripPast(a: string, t: string, chars: set<char>)
    requires forall i :: 0 <= i < |a| ==> a[i] in chars
    requires t == [] || t[0] !in chars
    ensures LStrip(a + t, chars) == t
  {
    if a == [] {
      assert a + t == t;
    } else {
      assert (a + t)[1..] == a[1..] + t;
      LStripPast(a[1..], t, chars);
    }
  }

  /** `rstrip` removes a trailing run of `chars` and stops at the last other character. */
  lemma {:induction false} RStripPast(t: string, b: string, chars: set<char>)
    requires forall i :: 0 <= i < |b| ==> b[i] in chars
    requires t == [] || t[|t| - 1] !in chars
    ensures RStrip(t + b, chars) == t
  {
    if b == [] {
      assert t + b == t;
    } else {
      assert (t + b)[..|t + b| - 1] == t + b[..|b| - 1];
      RStripPast(t, b[..|b| - 1], chars);
    }
  }

  /** `strip()` removes exactly the whitespace around a string that has none at its ends. */
  lemma StripPadded(a: string, w: string, b: string)
    requires forall i :: 0 <= i < |a| ==> a[i] in Whitespace
    requires forall i :: 0 <= i < |b| ==> b[i] in Whitespace
    requires Stripped(w)
    ensures Strip(a + w + b) == w
  {
    if w == [] {
      var ab := a + b;
      assert a + w + b == ab + [];
      assert forall i :: 0 <= i < |ab| ==> ab[i] in Whitespace;
      LStripPast(ab, [], Whitespace);
      RStripPast([], [], Whitespace);
    } else {
      assert a + w + b == a + (w + b);
      LStripPast(a, w + b, Whitespace);
      RStripPast(w, b, Whitespace);
    }
  }

  /** Where the slice kept by `strip()` starts. */
  function Lead(s: string): nat {
    LStripSpec(s, Whitespace);
    |s| - |LStrip(s, Whitespace)|
  }
}
