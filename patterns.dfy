/**
 The two regular expressions the handler tests: `/#test\b/i` and
 `/hello|hi|hey/i`, neither with the `u` flag.

 `Search` follows the way `RegExp.prototype.test` runs a pattern (section
 22.2.7 of ECMA-262): try a match at index 0, 1, ... up to the length of the
 string and succeed at the first index where the pattern matches. Characters
 are compared after `Canonicalize`, which without the `u` flag upper-cases a
 character but never maps a non-ASCII character to an ASCII one; every
 pattern character here is ASCII, so only the ASCII case pairs can ever
 compare equal. `\b` holds where exactly one of the two neighbouring
 characters is a word character, the word characters being `[A-Za-z0-9_]`.

 `HasTestMarker` and `HasGreeting` say the same in plain terms, and
 `TestMarkerSpec` and `GreetingSpec` prove that the two agree.
 */
module Patterns {

  /** The word characters of `\b` without the `u` flag. */
  predicate IsWordChar(c: char) {
    'a' <= c <= 'z' || 'A' <= c <= 'Z' || '0' <= c <= '9' || c == '_'
  }

  /** Case folding for comparison, restricted to the ASCII letters. */
  function Canonicalize(c: char): char {
    if 'a' <= c <= 'z' then (c as int - 32) as char else c
  }

  function LowerAscii(c: char): char {
    if 'A' <= c <= 'Z' then (c as int + 32) as char else c
  }

  // ---------------------------------------------------------------------
  // The matcher

  /** The two patterns. */
  datatype Pattern = TestMarker | GreetingWords

  /** The pattern characters `lit` match `s` from index `k` on. */
  predicate LiteralAt(s: string, k: nat, lit: string)
    decreases |lit|
  {
    lit == [] ||
    (k < |s| && Canonicalize(s[k]) == Canonicalize(lit[0]) && LiteralAt(s, k + 1, lit[1..]))
  }

  /** `\b` at index `e` of `s`. */
  predicate WordBoundaryAt(s: string, e: nat) {
    var before := 0 < e <= |s| && IsWordChar(s[e - 1]);
    var after := e < |s| && IsWordChar(s[e]);
    before != after
  }

  /** The pattern matches `s` starting at index `k`; the alternatives of the
      greeting are tried left to right. */
  predicate MatchesAt(p: Pattern, s: string, k: nat) {
    match p
    case TestMarker => LiteralAt(s, k, "#test") && WordBoundaryAt(s, k + 5)
    case GreetingWords => LiteralAt(s, k, "hello") || LiteralAt(s, k, "hi") || LiteralAt(s, k, "hey")
  }

  /** Try every start index from `k` to the end of `s`. */
  predicate Search(p: Pattern, s: string, k: nat)
    decreases |s| - k
  {
    if k > |s| then false else MatchesAt(p, s, k) || Search(p, s, k + 1)
  }

  /** `pattern.test(s)` */
  predicate Test(p: Pattern, s: string) {
    Search(p, s, 0)
  }

  // ---------------------------------------------------------------------
  // What the patterns mean

  /** The word `w` (lower-case) occurs in `s` at index `i`, ignoring ASCII case. */
  predicate OccursAt(s: string, i: int, w: string) {
    0 <= i && i + |w| <= |s| && forall j :: 0 <= j < |w| ==> LowerAscii(s[i + j]) == w[j]
  }

  /** `#test` in any case at index `i`, followed by the end of `s` or by a
      character that is not a word character. */
  predicate MarkerAt(s: string, i: int) {
    OccursAt(s, i, "#test") && (i + 5 == |s| || !IsWordChar(s[i + 5]))
  }

  ghost predicate HasTestMarker(s: string) {
    exists i :: MarkerAt(s, i)
  }

  /** Unanchored: the words may sit inside longer words ("this", "Ohio"). */
  ghost predicate HasGreeting(s: string) {
    (exists i :: OccursAt(s, i, "hello")) ||
    (exists i :: OccursAt(s, i, "hi")) ||
    (exists i :: OccursAt(s, i, "hey"))
  }

  // ---------------------------------------------------------------------
  // The matcher does what the patterns mean

  predicate NoUpperAscii(w: string) {
    forall j :: 0 <= j < |w| ==> !('A' <= w[j] <= 'Z')
  }

  lemma CanonicalizeMatchesLower(c: char, l: char)
    requires !('A' <= l <= 'Z')
    ensures Canonicalize(c) == Canonicalize(l) <==> LowerAscii(c) == l
  {
  }

  /** An occurrence is its first character followed by an occurrence of the rest. */
  lemma OccursAtCons(s: string, k: nat, w: string)
    requires w != []
    ensures OccursAt(s, k, w) <==>
      k < |s| && LowerAscii(s[k]) == w[0] && OccursAt(s, k + 1, w[1..])
  {
  }

  /** Comparing canonicalised characters is comparing the lower-cased text
      with a lower-case word. */
  lemma {:induction false} LiteralAtIffOccursAt(s: string, k: nat, w: string)
    requires k <= |s| && NoUpperAscii(w)
    ensures LiteralAt(s, k, w) <==> OccursAt(s, k, w)
    decreases |w|
  {
    if w != [] {
      assert NoUpperAscii(w[1..]) by {
        forall j | 0 <= j < |w| - 1 ensures !('A' <= w[1..][j] <= 'Z') {
          assert w[1..][j] == w[j + 1];
        }
      }
      if k < |s| {
        LiteralAtIffOccursAt(s, k + 1, w[1..]);
        CanonicalizeMatchesLower(s[k], w[0]);
      }
      OccursAtCons(s, k, w);
    }
  }

  /** Where the matcher finds a match is where the plain description says. */
  lemma MatchesAtIff(s: string, k: nat)
    requires k <= |s|
    ensures MatchesAt(TestMarker, s, k) <==> MarkerAt(s, k)
    ensures MatchesAt(GreetingWords, s, k) <==>
      OccursAt(s, k, "hello") || OccursAt(s, k, "hi") || OccursAt(s, k, "hey")
  {
    LiteralAtIffOccursAt(s, k, "#test");
    LiteralAtIffOccursAt(s, k, "hello");
    LiteralAtIffOccursAt(s, k, "hi");
    LiteralAtIffOccursAt(s, k, "hey");
    if OccursAt(s, k, "#test") {
      assert LowerAscii(s[k + 4]) == "#test"[4];
      assert IsWordChar(s[k + 4]);
    }
  }

  /** Scanning from `k` finds a match exactly when one starts at some index
      between `k` and the end of `s`. */
  lemma {:induction false} SearchIff(p: Pattern, s: string, k: nat)
    ensures Search(p, s, k) <==> exists j :: k <= j <= |s| && MatchesAt(p, s, j)
    decreases |s| - k
  {
    if k <= |s| {
      SearchIff(p, s, k + 1);
    }
  }

  /** `/#test\b/i.test(s)` holds exactly when `s` carries the marker. */
  lemma TestMarkerSpec(s: string)
    ensures Test(TestMarker, s) <==> HasTestMarker(s)
  {
    SearchIff(TestMarker, s, 0);
    if HasTestMarker(s) {
      var i :| MarkerAt(s, i);
      MatchesAtIff(s, i);
    }
    if Test(TestMarker, s) {
      var j :| 0 <= j <= |s| && MatchesAt(TestMarker, s, j);
      MatchesAtIff(s, j);
    }
  }

  /** `/hello|hi|hey/i.test(s)` holds exactly when one of the three words
      occurs in `s`, ignoring case. */
  lemma GreetingSpec(s: string)
    ensures Test(GreetingWords, s) <==> HasGreeting(s)
  {
    SearchIff(GreetingWords, s, 0);
    if exists i :: OccursAt(s, i, "hello") {
      var i :| OccursAt(s, i, "hello");
      MatchesAtIff(s, i);
    }
    if exists i :: OccursAt(s, i, "hi") {
      var i :| OccursAt(s, i, "hi");
      MatchesAtIff(s, i);
    }
    if exists i :: OccursAt(s, i, "hey") {
      var i :| OccursAt(s, i, "hey");
      MatchesAtIff(s, i);
    }
    if Test(GreetingWords, s) {
      var j :| 0 <= j <= |s| && MatchesAt(GreetingWords, s, j);
      MatchesAtIff(s, j);
    }
  }

  /** The marker is found in any case and anywhere in the text. */
  lemma MarkerPresentExamples()
    ensures HasTestMarker("#TEST please") && HasTestMarker("hello #test")
    ensures HasTestMarker("#test please check")
  {
    assert MarkerAt("#TEST please", 0);
    assert MarkerAt("hello #test", 6);
    assert MarkerAt("#test please check", 0);
  }

  /** The marker needs a word boundary after `#test`: "#testing", "#test_" and
      "#test1" do not carry it. */
  lemma MarkerNeedsBoundary()
    ensures !HasTestMarker("#testing") && !HasTestMarker("#test_") && !HasTestMarker("#test1")
  {
    forall s, i | s in ["#testing", "#test_", "#test1"] ensures !MarkerAt(s, i) {
      if 0 < i < |s| {
        assert LowerAscii(s[i]) != "#test"[0];
      }
    }
  }

  /** The greeting words are found inside other words. */
  lemma GreetingInsideWords()
    ensures HasGreeting("this") && HasGreeting("Ohio") && HasGreeting("HEY there")
  {
    assert OccursAt("this", 1, "hi");
    assert OccursAt("Ohio", 1, "hi");
    assert OccursAt("HEY there", 0, "hey");
  }

  /** A text without the letter h in either case holds no greeting word. */
  lemma {:induction false} NoGreetingWithoutH(s: string)
    requires forall k :: 0 <= k < |s| ==> LowerAscii(s[k]) != 'h'
    ensures !HasGreeting(s)
  {
    forall i, w | w in ["hello", "hi", "hey"] ensures !OccursAt(s, i, w) {
      if 0 <= i < |s| {
        assert LowerAscii(s[i]) != w[0];
      }
    }
  }

  /** What a plain object converts to, and a typical acknowledgement, hold no greeting. */
  lemma NoGreetingExamples()
    ensures !HasGreeting("Got it") && !HasGreeting("[object Object]")
  {
    NoGreetingWithoutH("Got it");
    NoGreetingWithoutH("[object Object]");
  }

  /** A text without `#` carries no marker. */
  lemma MarkerAbsentWithoutHash(s: string)
    requires forall k :: 0 <= k < |s| ==> s[k] != '#'
    ensures !HasTestMarker(s)
  {
    forall i | 0 <= i < |s| ensures !MarkerAt(s, i) {
      assert LowerAscii(s[i]) != "#test"[0];
    }
  }
}
