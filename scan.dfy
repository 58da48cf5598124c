/**
 * The resource scan of `Page.prototype.getResources`: repeated `exec` of the global
 * regex `/ (?:href|src)=("|')([^\1]+?)\1/ig` over the body. Inside the character class
 * `\1` is the character U+0001, so the value is the shortest non-empty run of characters
 * other than U+0001 that is followed by the same quote that opened it.
 */
module Scan {

  import opened Wrappers
  import opened Strings

  /** One `exec` result: where the match starts, the captured value, and `lastIndex` after it. */
  datatype Match = Match(start: nat, value: string, end: nat)

  const Excluded: char := 1 as char

  predicate IsQuote(c: char) {
    c == '"' || c == '\''
  }

  /** `(?:href|src)=` under the `i` flag, at index k; the index of the opening quote. */
  function AttributeName(body: string, k: nat): Option<nat> {
    if k + 5 <= |body| && Lower(body[k..k + 5]) == "href=" then Some(k + 5)
    else if k + 4 <= |body| && Lower(body[k..k + 4]) == "src=" then Some(k + 4)
    else None
  }

  /** The lazy run, from index j on: the first `q` closes it, a U+0001 before it fails the match. */
  function CloseQuote(body: string, q: char, j: nat): (r: Option<nat>)
    ensures r.Some? ==> j <= r.value < |body|
    decreases |body| - j
  {
    if j >= |body| then None
    else if body[j] == q then Some(j)
    else if body[j] == Excluded then None
    else CloseQuote(body, q, j + 1)
  }

  /** The regex from the opening quote at index q on, for an attempt that started at k. */
  function Quoted(body: string, k: nat, q: nat): (r: Option<Match>)
    ensures r.Some? ==> r.value.start == k && q + 2 < r.value.end <= |body|
  {
    if q + 1 < |body| && IsQuote(body[q]) && body[q + 1] != Excluded then
      match CloseQuote(body, body[q], q + 2)
      case None => None
      case Some(c) => Some(Match(k, body[q + 1..c], c + 1))
    else None
  }

  /** The regex attempted at start position k. */
  function MatchAt(body: string, k: nat): (r: Option<Match>)
    ensures r.Some? ==> r.value.start == k && k < r.value.end <= |body|
  {
    if k < |body| && body[k] == ' ' then
      match AttributeName(body, k + 1)
      case None => None
      case Some(q) => Quoted(body, k, q)
    else None
  }

  /** `regex.exec(body)` with `lastIndex == from`: the first start position at or after `from` that matches. */
  function Exec(body: string, from: nat): (r: Option<Match>)
    ensures r.Some? ==> from <= r.value.start < r.value.end <= |body|
    decreases |body| - from
  {
    if from >= |body| then None
    else if MatchAt(body, from).Some? then MatchAt(body, from)
    else Exec(body, from + 1)
  }

  /** All matches `exec` returns from `lastIndex == from` on, in the order it returns them. */
  function MatchesFrom(body: string, from: nat): seq<Match>
    decreases |body| - from
  {
    match Exec(body, from)
    case None => []
    case Some(m) => [m] + MatchesFrom(body, m.end)
  }

  /** The captured values of a run of matches. */
  function ValuesOf(ms: seq<Match>): seq<string> {
    seq(|ms|, i requires 0 <= i < |ms| => ms[i].value)
  }

  /** The attribute values of the body, in document order. */
  function Values(body: string): seq<string> {
    ValuesOf(MatchesFrom(body, 0))
  }

  /**
   * What a match is, stated without the search: a space, `href=` or `src=` in any case,
   * an opening quote, a non-empty value free of U+0001 whose characters after the first
   * are not that quote, and the closing quote.
   */
  predicate Attribute(body: string, m: Match) {
    AttributeNamed(body, m, "href=") || AttributeNamed(body, m, "src=")
  }

  /** `Attribute` with the given attribute name, `=` included. */
  predicate AttributeNamed(body: string, m: Match, name: string) {
    var q := m.start + 1 + |name|;
    && m.start < |body| && body[m.start] == ' '
    && q + 2 < m.end <= |body|
    && Lower(body[m.start + 1..q]) == name
    && IsQuote(body[q]) && body[m.end - 1] == body[q]
    && m.value == body[q + 1..m.end - 1]
    && (forall t :: q + 1 <= t < m.end - 1 ==> body[t] != Excluded)
    && (forall t :: q + 2 <= t < m.end - 1 ==> body[t] != body[q])
  }

  lemma {:induction false} CloseQuoteSpec(body: string, q: char, j: nat)
    ensures forall c :: CloseQuote(body, q, j) == Some(c) <==>
              (j <= c < |body| && body[c] == q && forall t :: j <= t < c ==> body[t] != q && body[t] != Excluded)
    decreases |body| - j
  {
    if j < |body| && body[j] != q && body[j] != Excluded {
      CloseQuoteSpec(body, q, j + 1);
    }
  }

  /** A successful attempt has read a space and a name, and goes on at the quote after the name. */
  lemma MatchAtOpening(body: string, m: Match)
    requires MatchAt(body, m.start) == Some(m)
    ensures m.start < |body| && body[m.start] == ' ' && AttributeName(body, m.start + 1).Some?
    ensures Quoted(body, m.start, AttributeName(body, m.start + 1).value) == Some(m)
  {
  }

  /** What the quoted part of a successful attempt has read: the quotes, and the value between them. */
  lemma QuotedFields(body: string, k: nat, q: nat, m: Match)
    requires Quoted(body, k, q) == Some(m)
    ensures q + 1 < |body| && IsQuote(body[q]) && body[q + 1] != Excluded
    ensures CloseQuote(body, body[q], q + 2) == Some(m.end - 1)
    ensures m.value == body[q + 1..m.end - 1]
  {
  }

  /** The index `AttributeName` returns is just past `href=` or `src=`. */
  lemma AttributeNameSpec(body: string, i: nat)
    requires AttributeName(body, i).Some?
    ensures AttributeName(body, i).value <= |body|
    ensures AttributeName(body, i).value == i + 5 ==> Lower(body[i..i + 5]) == "href="
    ensures AttributeName(body, i).value != i + 5 ==>
              AttributeName(body, i).value == i + 4 && Lower(body[i..i + 4]) == "src="
  {
  }

  /** The quote `CloseQuote` stops at, with nothing before it that is the quote or U+0001. */
  lemma CloseQuoteFound(body: string, q: char, j: nat, c: nat)
    requires CloseQuote(body, q, j) == Some(c)
    ensures c < |body| && body[c] == q && forall t :: j <= t < c ==> body[t] != q && body[t] != Excluded
  {
    CloseQuoteSpec(body, q, j);
  }

  lemma MatchAtSound(body: string, m: Match)
    requires MatchAt(body, m.start) == Some(m)
    ensures Attribute(body, m)
  {
    var k := m.start;
    MatchAtOpening(body, m);
    AttributeNameSpec(body, k + 1);
    var q := AttributeName(body, k + 1).value;
    QuotedFields(body, k, q, m);
    CloseQuoteFound(body, body[q], q + 2, m.end - 1);
    if q == k + 6 {
      NamedFromParts(body, m, "href=");
    } else {
      NamedFromParts(body, m, "src=");
    }
  }

  /** The pieces of an attribute value, read off one by one, make up `AttributeNamed`. */
  lemma NamedFromParts(body: string, m: Match, name: string)
    requires m.start < |body| && body[m.start] == ' '
    requires m.start + 1 + |name| + 1 < |body| && Lower(body[m.start + 1..m.start + 1 + |name|]) == name
    requires IsQuote(body[m.start + 1 + |name|]) && body[m.start + 1 + |name| + 1] != Excluded
    requires m.start + 1 + |name| + 2 <= m.end - 1 < |body|
    requires body[m.end - 1] == body[m.start + 1 + |name|]
    requires m.value == body[m.start + 1 + |name| + 1..m.end - 1]
    requires forall t :: m.start + 1 + |name| + 2 <= t < m.end - 1 ==>
               body[t] != body[m.start + 1 + |name|] && body[t] != Excluded
    ensures AttributeNamed(body, m, name)
  {
  }

  /** `src=` and `href=` cannot both start at one index. */
  lemma NamesExclusive(body: string, i: nat)
    requires i + 4 <= |body| && Lower(body[i..i + 4]) == "src="
    ensures !(i + 5 <= |body| && Lower(body[i..i + 5]) == "href=")
  {
    assert Lower(body[i..i + 4])[0] == LowerChar(body[i]);
    if i + 5 <= |body| {
      assert Lower(body[i..i + 5])[0] == LowerChar(body[i]);
    }
  }

  lemma MatchAtComplete(body: string, m: Match)
    requires Attribute(body, m)
    ensures MatchAt(body, m.start) == Some(m)
  {
    if AttributeNamed(body, m, "href=") {
      NamedComplete(body, m, "href=");
    } else {
      NamedComplete(body, m, "src=");
    }
  }

  /** An attribute value with either name is what the attempt at its start yields. */
  lemma NamedComplete(body: string, m: Match, name: string)
    requires name == "href=" || name == "src="
    requires AttributeNamed(body, m, name)
    ensures MatchAt(body, m.start) == Some(m)
  {
    var q := m.start + 1 + |name|;
    if name == "href=" {
      HrefName(body, m.start + 1);
    } else {
      SrcName(body, m.start + 1);
    }
    CloseQuoteAt(body, body[q], q + 2, m.end - 1);
    MatchAtFromParts(body, m, q);
  }

  /** `href=` in any case is read as the name. */
  lemma HrefName(body: string, i: nat)
    requires i + 5 <= |body| && Lower(body[i..i + 5]) == "href="
    ensures AttributeName(body, i) == Some(i + 5)
  {
  }

  /** `src=` in any case is read as the name. */
  lemma SrcName(body: string, i: nat)
    requires i + 4 <= |body| && Lower(body[i..i + 4]) == "src="
    ensures AttributeName(body, i) == Some(i + 4)
  {
    NamesExclusive(body, i);
  }

  /** The first quote from j on, with no U+0001 before it, is where the lazy run stops. */
  lemma CloseQuoteAt(body: string, q: char, j: nat, c: nat)
    requires j <= c < |body| && body[c] == q
    requires forall t :: j <= t < c ==> body[t] != q && body[t] != Excluded
    ensures CloseQuote(body, q, j) == Some(c)
  {
    CloseQuoteSpec(body, q, j);
  }

  /** An attempt that reads a space, a name ending at q and a quoted value yields that match. */
  lemma MatchAtFromParts(body: string, m: Match, q: nat)
    requires m.start < |body| && body[m.start] == ' ' && AttributeName(body, m.start + 1) == Some(q)
    requires q + 1 < |body| && IsQuote(body[q]) && body[q + 1] != Excluded
    requires CloseQuote(body, body[q], q + 2) == Some(m.end - 1) && m.value == body[q + 1..m.end - 1]
    ensures MatchAt(body, m.start) == Some(m)
  {
  }

  /** A start position yields a match exactly when an attribute value begins there. */
  lemma MatchAtSpec(body: string, m: Match)
    ensures MatchAt(body, m.start) == Some(m) <==> Attribute(body, m)
  {
    if MatchAt(body, m.start) == Some(m) { MatchAtSound(body, m); }
    if Attribute(body, m) { MatchAtComplete(body, m); }
  }

  /** A match `exec` returns is the regex's match at its start, and no earlier start matches. */
  lemma {:induction false} ExecFound(body: string, from: nat)
    requires Exec(body, from).Some?
    ensures MatchAt(body, Exec(body, from).value.start) == Exec(body, from)
    ensures forall k :: from <= k < Exec(body, from).value.start ==> MatchAt(body, k).None?
    decreases |body| - from
  {
    if MatchAt(body, from).None? {
      ExecFound(body, from + 1);
    }
  }

  /** When `exec` returns null, no start position from `from` on matches. */
  lemma {:induction false} ExecMissing(body: string, from: nat)
    requires Exec(body, from).None?
    ensures forall k :: from <= k ==> MatchAt(body, k).None?
    decreases |body| - from
  {
    if from < |body| {
      ExecMissing(body, from + 1);
    }
  }

  lemma ExecSpec(body: string, from: nat)
    ensures Exec(body, from).Some? ==>
              var m := Exec(body, from).value;
              MatchAt(body, m.start) == Some(m) && forall k :: from <= k < m.start ==> MatchAt(body, k).None?
    ensures Exec(body, from).None? ==> forall k :: from <= k ==> MatchAt(body, k).None?
  {
    if Exec(body, from).Some? { ExecFound(body, from); } else { ExecMissing(body, from); }
  }

  /** Consecutive matches do not overlap: each starts at or after the previous one's `lastIndex`. */
  predicate Ordered(ms: seq<Match>) {
    forall i :: 0 <= i < |ms| - 1 ==> ms[i].end <= ms[i + 1].start
  }

  /** Each element is what the regex yields at its own start position, at or after `from`. */
  predicate Found(body: string, from: nat, ms: seq<Match>) {
    forall i :: 0 <= i < |ms| ==> MatchAt(body, ms[i].start) == Some(ms[i]) && from <= ms[i].start
  }

  lemma OrderedCons(m: Match, rest: seq<Match>)
    requires Ordered(rest) && (|rest| > 0 ==> m.end <= rest[0].start)
    ensures Ordered([m] + rest)
  {
    var ms := [m] + rest;
    forall i | 0 <= i < |ms| - 1 ensures ms[i].end <= ms[i + 1].start {
      if i > 0 { assert ms[i] == rest[i - 1] && ms[i + 1] == rest[i]; }
    }
  }

  lemma {:induction false} MatchesFromExec(body: string, from: nat)
    ensures Found(body, from, MatchesFrom(body, from))
    ensures Ordered(MatchesFrom(body, from))
    decreases |body| - from
  {
    if Exec(body, from).Some? {
      ExecFound(body, from);
      var first := Exec(body, from).value;
      var rest := MatchesFrom(body, first.end);
      MatchesFromExec(body, first.end);
      MatchesFromUnfold(body, from);
      FoundCons(body, from, first, rest);
      OrderedCons(first, rest);
    }
  }

  /** A match found at or after `from`, followed by matches found after it ends. */
  lemma FoundCons(body: string, from: nat, first: Match, rest: seq<Match>)
    requires MatchAt(body, first.start) == Some(first) && from <= first.start
    requires Found(body, first.end, rest)
    ensures Found(body, from, [first] + rest)
    ensures |rest| > 0 ==> first.end <= rest[0].start
  {
    var ms := [first] + rest;
    forall i | 0 <= i < |ms| ensures MatchAt(body, ms[i].start) == Some(ms[i]) && from <= ms[i].start {
      if i > 0 { assert ms[i] == rest[i - 1]; }
    }
  }

  /** Every value the scan returns is an attribute value, and they come in document order. */
  lemma MatchesFromSound(body: string, from: nat)
    ensures var ms := MatchesFrom(body, from);
            && (forall i :: 0 <= i < |ms| ==> Attribute(body, ms[i]) && from <= ms[i].start)
            && Ordered(ms)
  {
    var ms := MatchesFrom(body, from);
    MatchesFromExec(body, from);
    forall i | 0 <= i < |ms| ensures Attribute(body, ms[i]) {
      MatchAtSound(body, ms[i]);
    }
  }

  /** `m` is returned, or starts strictly inside a returned match. */
  predicate Covered(ms: seq<Match>, m: Match) {
    exists i :: 0 <= i < |ms| && (ms[i] == m || ms[i].start < m.start < ms[i].end)
  }

  /** One step of the scan: the first match, then the scan from where it ends. */
  lemma MatchesFromUnfold(body: string, from: nat)
    requires Exec(body, from).Some?
    ensures MatchesFrom(body, from) == [Exec(body, from).value] + MatchesFrom(body, Exec(body, from).value.end)
  {
  }

  lemma {:induction false} MatchesFromCovers(body: string, from: nat, m: Match)
    requires from <= m.start && MatchAt(body, m.start) == Some(m)
    ensures Covered(MatchesFrom(body, from), m)
    decreases |body| - from
  {
    if Exec(body, from).None? {
      ExecMissing(body, from);
      assert false;
    }
    ExecFound(body, from);
    var first := Exec(body, from).value;
    var rest := MatchesFrom(body, first.end);
    MatchesFromUnfold(body, from);
    if m.start >= first.end {
      MatchesFromCovers(body, first.end, m);
      CoveredLater(first, rest, m);
    } else {
      assert m.start == first.start ==> m == first;
      CoveredFirst(first, rest, m);
    }
  }

  /** A match covered by the later matches is covered by the whole run. */
  lemma CoveredLater(first: Match, rest: seq<Match>, m: Match)
    requires Covered(rest, m)
    ensures Covered([first] + rest, m)
  {
    var i :| 0 <= i < |rest| && (rest[i] == m || rest[i].start < m.start < rest[i].end);
    assert ([first] + rest)[i + 1] == rest[i];
  }

  /** A match that is the first one, or starts inside it, is covered. */
  lemma CoveredFirst(first: Match, rest: seq<Match>, m: Match)
    requires first == m || first.start < m.start < first.end
    ensures Covered([first] + rest, m)
  {
    assert ([first] + rest)[0] == first;
  }

  /**
   * The scan misses nothing: every attribute value that starts at or after `from` is
   * returned, unless it begins inside a value already returned.
   */
  lemma MatchesFromComplete(body: string, from: nat, m: Match)
    requires from <= m.start && Attribute(body, m)
    ensures Covered(MatchesFrom(body, from), m)
  {
    MatchAtComplete(body, m);
    MatchesFromCovers(body, from, m);
  }
}
