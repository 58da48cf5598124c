/**
 * The two regular-expression shapes the CDN table, the static-asset filter and the
 * subdomain test use: a literal anchored at the end (`/lit$/`) and an unanchored
 * literal (`/lit/`), each with or without the `i` flag. `Test` follows how a
 * backtracking engine answers `RegExp.prototype.test`: it tries every start position
 * from left to right.
 */
module Regex {

  import opened Strings

  datatype Pattern =
    | Suffix(literal: string, ignoreCase: bool)
    | Contains(literal: string, ignoreCase: bool)

  predicate SameChar(a: char, b: char, ignoreCase: bool) {
    if ignoreCase then LowerChar(a) == LowerChar(b) else a == b
  }

  /** The literal matches the subject starting at index k. */
  predicate LiteralAt(literal: string, ignoreCase: bool, subject: string, k: nat) {
    k + |literal| <= |subject| &&
    forall i :: 0 <= i < |literal| ==> SameChar(subject[k + i], literal[i], ignoreCase)
  }

  /** The whole pattern matches from start position k (`$` anchors at the end of the input). */
  predicate MatchesAt(p: Pattern, subject: string, k: nat) {
    match p
    case Suffix(lit, ic) => LiteralAt(lit, ic, subject, k) && k + |lit| == |subject|
    case Contains(lit, ic) => LiteralAt(lit, ic, subject, k)
  }

  predicate SearchFrom(p: Pattern, subject: string, k: nat)
    decreases |subject| - k
  {
    k <= |subject| && (MatchesAt(p, subject, k) || SearchFrom(p, subject, k + 1))
  }

  /** `pattern.test(subject)`. */
  predicate Test(p: Pattern, subject: string) {
    SearchFrom(p, subject, 0)
  }

  /** The text as the pattern compares it: lower-cased under the `i` flag. */
  function Fold(s: string, ignoreCase: bool): string {
    if ignoreCase then Lower(s) else s
  }

  lemma {:induction false} SearchFromSpec(p: Pattern, subject: string, k: nat)
    ensures SearchFrom(p, subject, k) <==> exists j :: k <= j <= |subject| && MatchesAt(p, subject, j)
    decreases |subject| - k
  {
    if k <= |subject| {
      SearchFromSpec(p, subject, k + 1);
    }
  }

  lemma LiteralAtFold(literal: string, ignoreCase: bool, subject: string, k: nat)
    ensures LiteralAt(literal, ignoreCase, subject, k) <==> OccursAt(Fold(subject, ignoreCase), Fold(literal, ignoreCase), k)
  {
    var fs, fl := Fold(subject, ignoreCase), Fold(literal, ignoreCase);
    if LiteralAt(literal, ignoreCase, subject, k) {
      assert fs[k..k + |fl|] == fl by {
        forall i | 0 <= i < |fl| ensures fs[k..k + |fl|][i] == fl[i] {
          assert SameChar(subject[k + i], literal[i], ignoreCase);
        }
      }
    }
    if OccursAt(fs, fl, k) {
      forall i | 0 <= i < |literal| ensures SameChar(subject[k + i], literal[i], ignoreCase) {
        assert fs[k..k + |fl|][i] == fl[i];
      }
    }
  }

  /** An anchored literal is a plain suffix test: no dot boundary or other context is required. */
  lemma SuffixTest(literal: string, ignoreCase: bool, subject: string)
    ensures Test(Suffix(literal, ignoreCase), subject) <==> EndsWith(Fold(subject, ignoreCase), Fold(literal, ignoreCase))
  {
    var p := Suffix(literal, ignoreCase);
    var fs, fl := Fold(subject, ignoreCase), Fold(literal, ignoreCase);
    SearchFromSpec(p, subject, 0);
    if Test(p, subject) {
      var j :| 0 <= j <= |subject| && MatchesAt(p, subject, j);
      LiteralAtFold(literal, ignoreCase, subject, j);
    }
    if EndsWith(fs, fl) {
      LiteralAtFold(literal, ignoreCase, subject, |subject| - |literal|);
      assert MatchesAt(p, subject, |subject| - |literal|);
    }
  }

  /** An unanchored literal is a substring test. */
  lemma ContainsTest(literal: string, ignoreCase: bool, subject: string)
    ensures Test(Contains(literal, ignoreCase), subject) <==>
            exists k :: OccursAt(Fold(subject, ignoreCase), Fold(literal, ignoreCase), k)
  {
    var p := Contains(literal, ignoreCase);
    var fs, fl := Fold(subject, ignoreCase), Fold(literal, ignoreCase);
    SearchFromSpec(p, subject, 0);
    if Test(p, subject) {
      var j :| 0 <= j <= |subject| && MatchesAt(p, subject, j);
      LiteralAtFold(literal, ignoreCase, subject, j);
    }
    if exists k :: OccursAt(fs, fl, k) {
      var k :| OccursAt(fs, fl, k);
      LiteralAtFold(literal, ignoreCase, subject, k);
      assert MatchesAt(p, subject, k);
    }
  }

  /** Some pattern of the list matches: a list of patterns read as one alternation. */
  predicate AnyMatch(patterns: seq<Pattern>, subject: string)
    decreases |patterns|
  {
    |patterns| > 0 && (Test(patterns[0], subject) || AnyMatch(patterns[1..], subject))
  }

  lemma {:induction false} AnyMatchSpec(patterns: seq<Pattern>, subject: string)
    ensures AnyMatch(patterns, subject) <==> exists i :: 0 <= i < |patterns| && Test(patterns[i], subject)
    decreases |patterns|
  {
    if |patterns| > 0 {
      AnyMatchSpec(patterns[1..], subject);
      if exists i :: 0 <= i < |patterns| && Test(patterns[i], subject) {
        var i :| 0 <= i < |patterns| && Test(patterns[i], subject);
        if i > 0 { assert Test(patterns[1..][i - 1], subject); }
      }
    }
  }

  /** A suffix match fixes the subject's characters from the end: the j-th from last is the literal's. */
  lemma SuffixCharAt(literal: string, ignoreCase: bool, subject: string, j: nat)
    requires j < |literal|
    ensures Test(Suffix(literal, ignoreCase), subject) ==>
              |literal| <= |subject| && Fold(subject, ignoreCase)[|subject| - 1 - j] == Fold(literal, ignoreCase)[|literal| - 1 - j]
  {
    SuffixTest(literal, ignoreCase, subject);
    var fs, fl := Fold(subject, ignoreCase), Fold(literal, ignoreCase);
    if Test(Suffix(literal, ignoreCase), subject) {
      assert fs[|fs| - |fl|..][|fl| - 1 - j] == fs[|subject| - 1 - j];
    }
  }

  /** A substring match needs every character of the literal somewhere in the subject. */
  lemma ContainsChar(literal: string, ignoreCase: bool, subject: string, j: nat)
    requires j < |literal|
    ensures Test(Contains(literal, ignoreCase), subject) ==> Fold(literal, ignoreCase)[j] in Fold(subject, ignoreCase)
  {
    ContainsTest(literal, ignoreCase, subject);
    var fs, fl := Fold(subject, ignoreCase), Fold(literal, ignoreCase);
    if Test(Contains(literal, ignoreCase), subject) {
      var k :| OccursAt(fs, fl, k);
      assert fs[k..k + |fl|][j] == fs[k + j];
    }
  }
}
