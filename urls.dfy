/**
 * URLs as the page model sees them: a record of components, a simplified `url.parse`,
 * `url.format` as concatenation, the `url_protocol` regex shared by lib/spy.js and
 * lib/page.js, `path.resolve` as a segment stack, and `Page.prototype.buildURL`.
 */
module Urls {

  import opened Wrappers
  import opened Strings

  /**
   * Parsed URL. `protocol` keeps its colon (`http:`), `host` is the lower-cased authority
   * (absent when the text has no `scheme://`), `search` keeps its `?` and `hash` its `#`
   * (each empty when missing).
   */
  datatype UrlParts = UrlParts(protocol: string, host: Option<string>, pathname: string, search: string, hash: string)

  /** `url_parts.hostname`: the host without its port. */
  function Hostname(u: UrlParts): Option<string> {
    if u.host.Some? then Some(Before(u.host.value, ':')) else None
  }

  /** The number of letters and digits at the start of `s`. */
  function AlnumRun(s: string): (n: nat)
    ensures n <= |s|
    ensures forall i :: 0 <= i < n ==> IsAlnum(s[i])
    ensures n < |s| ==> !IsAlnum(s[n])
  {
    if s == [] || !IsAlnum(s[0]) then 0 else 1 + AlnumRun(s[1..])
  }

  // ---------------------------------------------------------------------------
  // The `url_protocol` regex, `/^([a-z0-9]+?):?\/\//i`.
  // ---------------------------------------------------------------------------

  /** The lazy group tries the shortest alphanumeric prefix first and grows it one character at a time. */
  function LazyScheme(s: string, n: nat): Option<string>
    requires 1 <= n
    decreases |s| - n
  {
    if n > |s| || !IsAlnum(s[n - 1]) then None
    else if StartsWith(s[n..], "://") || StartsWith(s[n..], "//") then Some(s[..n])
    else LazyScheme(s, n + 1)
  }

  /** `url_protocol.test(s)`, with the captured group `RegExp.$1` when it matches. */
  function SchemeOf(s: string): Option<string> {
    LazyScheme(s, 1)
  }

  /** p is a way for the regex to match s: a non-empty alphanumeric prefix followed by `://` or `//`. */
  predicate SchemePrefix(s: string, p: string) {
    0 < |p| && StartsWith(s, p) && (forall i :: 0 <= i < |p| ==> IsAlnum(p[i])) &&
    (StartsWith(s[|p|..], "://") || StartsWith(s[|p|..], "//"))
  }

  lemma {:induction false} LazySchemeSpec(s: string, n: nat)
    requires 1 <= n && n - 1 <= |s| && forall i :: 0 <= i < n - 1 ==> IsAlnum(s[i])
    ensures forall p :: |p| >= n && SchemePrefix(s, p) ==> LazyScheme(s, n) == Some(p)
    ensures forall p :: LazyScheme(s, n) == Some(p) ==> SchemePrefix(s, p)
    ensures LazyScheme(s, n).None? ==> forall p :: |p| >= n ==> !SchemePrefix(s, p)
    decreases |s| - n
  {
    if n > |s| || !IsAlnum(s[n - 1]) {
    } else if StartsWith(s[n..], "://") || StartsWith(s[n..], "//") {
      forall p | |p| >= n && SchemePrefix(s, p) ensures p == s[..n] {
        assert s[..|p|] == p;
        assert forall k :: 0 <= k < |p| ==> IsAlnum(s[k]) by {
          forall k | 0 <= k < |p| ensures IsAlnum(s[k]) { assert s[..|p|][k] == p[k]; }
        }
        assert !IsAlnum(s[n]) by { assert s[n] == s[n..][0]; }
        assert |p| == n;
        assert p == s[..|p|];
      }
    } else {
      LazySchemeSpec(s, n + 1);
      forall p | |p| >= n && SchemePrefix(s, p) ensures |p| >= n + 1 {
        assert p == s[..|p|];
      }
    }
  }

  /** The regex captures exactly the one prefix that lets it match, and fails when there is none. */
  lemma SchemeSpec(s: string)
    ensures forall p :: SchemeOf(s) == Some(p) <==> SchemePrefix(s, p)
    ensures SchemeOf(s).None? <==> forall p :: !SchemePrefix(s, p)
  {
    LazySchemeSpec(s, 1);
  }

  // ---------------------------------------------------------------------------
  // url.parse and url.format
  // ---------------------------------------------------------------------------

  /** Pathname, search and hash of the text after the authority. */
  function SplitTail(t: string): (string, string, string) {
    var h := FirstOf(t, {'#'});
    var q := FirstOf(t[..h], {'?'});
    (t[..q], t[q..h], t[h..])
  }

  /**
   * `url.parse(s)` reduced to the strings the page model feeds it: a scheme of letters and
   * digits followed by `://`, an authority that ends at the first `/`, `?` or `#`, then
   * pathname, `?search` and `#hash`. Scheme and authority are lower-cased; an empty
   * pathname after an authority becomes `/`.
   */
  function ParseUrl(s: string): UrlParts {
    var n := AlnumRun(s);
    if 0 < n && StartsWith(s[n..], "://") then
      ParseAuthority(Lower(s[..n]) + ":", s[n + 3..])
    else
      var (path, search, hash) := SplitTail(s);
      UrlParts("", None, path, search, hash)
  }

  /** A text whose run of letters and digits is not followed by `://` has no protocol and no host. */
  lemma ParseNoAuthority(s: string, n: nat)
    requires n <= |s| && (forall i :: 0 <= i < n ==> IsAlnum(s[i])) && (n < |s| ==> !IsAlnum(s[n]))
    requires !StartsWith(s[n..], "://")
    ensures ParseUrl(s).protocol == "" && ParseUrl(s).host.None?
    ensures NoneOf(s, {'?', '#'}) ==> ParseUrl(s) == UrlParts("", None, s, "", "")
  {
    assert AlnumRun(s) == n;
    if NoneOf(s, {'?', '#'}) {
      FirstOfIs(s, {'#'}, |s|);
      FirstOfIs(s, {'?'}, |s|);
      assert s[..|s|] == s;
    }
  }

  /** The parts after `scheme://`: the authority up to the first `/`, `?` or `#`, then the tail. */
  function ParseAuthority(protocol: string, rest: string): UrlParts {
    var e := FirstOf(rest, {'/', '?', '#'});
    var (path, search, hash) := SplitTail(rest[e..]);
    UrlParts(protocol, Some(Lower(rest[..e])), if path == "" then "/" else path, search, hash)
  }

  /**
   * `url.format`: the components written one after another, with `//` before the host. A
   * record without a host (`host === false` in `url.format`) gets no `//`.
   */
  function Format(u: UrlParts): string {
    u.protocol + (if u.host.Some? then "//" + u.host.value else "") + u.pathname + u.search + u.hash
  }

  predicate NoneOf(s: string, cs: set<char>) {
    forall i :: 0 <= i < |s| ==> s[i] !in cs
  }

  lemma NoneOfAppend(a: string, b: string, cs: set<char>)
    requires NoneOf(a, cs) && NoneOf(b, cs)
    ensures NoneOf(a + b, cs)
  {
    forall i | 0 <= i < |a + b| ensures (a + b)[i] !in cs {
      if i >= |a| { assert (a + b)[i] == b[i - |a|]; }
    }
  }

  /** A scheme as `url.parse` leaves it: lower-case letters and digits, then a colon. */
  predicate ValidProtocol(protocol: string) {
    |protocol| > 1 && protocol[|protocol| - 1] == ':' &&
    (forall i :: 0 <= i < |protocol| - 1 ==> IsAlnum(protocol[i])) &&
    Lower(protocol) == protocol
  }

  /** The records `ParseUrl` produces for a URL with an authority. */
  predicate WellFormed(u: UrlParts) {
    && ValidProtocol(u.protocol)
    && u.host.Some? && NoneOf(u.host.value, {'/', '?', '#'}) && Lower(u.host.value) == u.host.value
    && StartsWith(u.pathname, "/") && NoneOf(u.pathname, {'?', '#'})
    && (u.search == "" || (u.search[0] == '?' && NoneOf(u.search, {'#'})))
    && (u.hash == "" || u.hash[0] == '#')
  }

  lemma FirstOfIs(s: string, cs: set<char>, i: nat)
    requires i <= |s| && (i < |s| ==> s[i] in cs) && forall j :: 0 <= j < i ==> s[j] !in cs
    ensures FirstOf(s, cs) == i
  {
  }

  lemma ParseScheme(p: string, rest: string)
    requires 0 < |p| && forall i :: 0 <= i < |p| ==> IsAlnum(p[i])
    ensures ParseUrl(p + "://" + rest) == ParseAuthority(Lower(p) + ":", rest)
  {
    var s := p + "://" + rest;
    var n := AlnumRun(s);
    assert s[..|p|] == p;
    assert forall k :: 0 <= k < |p| ==> IsAlnum(s[k]) by {
      forall k | 0 <= k < |p| ensures IsAlnum(s[k]) { assert s[..|p|][k] == p[k]; }
    }
    assert s[|p|] == ':';
    assert n == |p|;
    assert s[n..][..3] == "://";
    assert s[n + 3..] == rest;
  }

  lemma ParseTail(pathname: string, search: string, hash: string)
    requires NoneOf(pathname, {'?', '#'})
    requires search == "" || (search[0] == '?' && NoneOf(search, {'#'}))
    requires hash == "" || hash[0] == '#'
    ensures SplitTail(pathname + search + hash) == (pathname, search, hash)
  {
    var tail := pathname + search + hash;
    var hashAt := |pathname| + |search|;
    FirstOfIs(tail, {'#'}, hashAt);
    assert tail[..hashAt] == pathname + search;
    FirstOfIs(pathname + search, {'?'}, |pathname|);
    assert tail[..|pathname|] == pathname;
    assert tail[|pathname|..hashAt] == search;
    assert tail[hashAt..] == hash;
  }

  lemma ParseHost(protocol: string, host: string, tail: string)
    requires NoneOf(host, {'/', '?', '#'}) && StartsWith(tail, "/")
    ensures ParseAuthority(protocol, host + tail) ==
            UrlParts(protocol, Some(Lower(host)), if SplitTail(tail).0 == "" then "/" else SplitTail(tail).0,
                     SplitTail(tail).1, SplitTail(tail).2)
  {
    var rest := host + tail;
    FirstOfIs(rest, {'/', '?', '#'}, |host|);
    assert rest[|host|..] == tail;
    assert rest[..|host|] == host;
  }

  lemma ProtocolName(protocol: string)
    requires ValidProtocol(protocol)
    ensures var p := protocol[..|protocol| - 1];
            0 < |p| && (forall i :: 0 <= i < |p| ==> IsAlnum(p[i])) && Lower(p) + ":" == protocol
  {
    var p := protocol[..|protocol| - 1];
    assert p + ":" == protocol;
    forall i | 0 <= i < |p| ensures Lower(p)[i] == p[i] {
      assert Lower(protocol)[i] == protocol[i];
    }
  }

  lemma FormatSplit(u: UrlParts)
    requires |u.protocol| > 0 && u.protocol[|u.protocol| - 1] == ':' && u.host.Some?
    ensures Format(u) == u.protocol[..|u.protocol| - 1] + "://" + (u.host.value + (u.pathname + u.search + u.hash))
  {
    var p := u.protocol[..|u.protocol| - 1];
    assert u.protocol == p + [u.protocol[|u.protocol| - 1]];
    var x, h, y := u.protocol[|u.protocol| - 1], u.host.value, u.pathname + u.search + u.hash;
    calc {
      Format(u);
      u.protocol + ("//" + h) + u.pathname + u.search + u.hash;
      u.protocol + "//" + (h + y);
      (p + [x]) + "//" + (h + y);
      { assert (p + [x]) + "//" == p + "://"; }
      p + "://" + (h + y);
    }
  }

  /** Formatting a well-formed record and parsing the text back gives the same record. */
  lemma ParseFormat(u: UrlParts)
    requires WellFormed(u)
    ensures ParseUrl(Format(u)) == u
  {
    var p := u.protocol[..|u.protocol| - 1];
    var h := u.host.value;
    var tail := u.pathname + u.search + u.hash;
    ProtocolName(u.protocol);
    assert StartsWith(tail, "/") by { assert tail[0] == u.pathname[0]; }
    ParseTail(u.pathname, u.search, u.hash);
    calc {
      ParseUrl(Format(u));
      { FormatSplit(u); }
      ParseUrl(p + "://" + (h + tail));
      { ParseScheme(p, h + tail); }
      ParseAuthority(u.protocol, h + tail);
      { ParseHost(u.protocol, h, tail); }
      UrlParts(u.protocol, Some(h), u.pathname, u.search, u.hash);
    }
  }

  /** A prefix that stops before the first character of `cs` contains none of `cs`. */
  lemma NoneOfPrefix(s: string, cs: set<char>, k: nat)
    requires k <= |s| && forall j :: 0 <= j < k ==> s[j] !in cs
    ensures NoneOf(s[..k], cs)
  {
    assert forall j :: 0 <= j < k ==> s[..k][j] == s[j];
  }

  /** The pieces `SplitTail` cuts are the pathname, search and hash shapes `WellFormed` asks for. */
  lemma SplitTailShape(t: string)
    ensures SplitTail(t).0 + SplitTail(t).1 + SplitTail(t).2 == t
    ensures NoneOf(SplitTail(t).0, {'?', '#'})
    ensures SplitTail(t).1 == "" || (SplitTail(t).1[0] == '?' && NoneOf(SplitTail(t).1, {'#'}))
    ensures SplitTail(t).2 == "" || SplitTail(t).2[0] == '#'
    ensures StartsWith(t, "/") ==> StartsWith(SplitTail(t).0, "/")
    ensures t != [] && t[0] in {'?', '#'} ==> SplitTail(t).0 == ""
  {
    SplitTailPieces(t);
    SplitTailFields(t);
  }

  /** The pieces of `SplitTail` put back together give the text; a leading `/`, `?` or `#` stays in front. */
  lemma SplitTailPieces(t: string)
    ensures SplitTail(t).0 + SplitTail(t).1 + SplitTail(t).2 == t
    ensures StartsWith(t, "/") ==> StartsWith(SplitTail(t).0, "/")
    ensures t != [] && t[0] in {'?', '#'} ==> SplitTail(t).0 == ""
  {
    var h := FirstOf(t, {'#'});
    var q := FirstOf(t[..h], {'?'});
    assert t[..q] + t[q..h] + t[h..] == t;
    if StartsWith(t, "/") { assert t[..h][0] == t[0]; }
    if t != [] && t[0] == '#' { assert h == 0; }
    if t != [] && t[0] == '?' { assert t[..h][0] == '?' && q == 0; }
  }

  /** The pathname holds no `?` or `#`, the search starts with `?` and holds no `#`, the hash starts with `#`. */
  lemma SplitTailFields(t: string)
    ensures NoneOf(SplitTail(t).0, {'?', '#'})
    ensures SplitTail(t).1 == "" || (SplitTail(t).1[0] == '?' && NoneOf(SplitTail(t).1, {'#'}))
    ensures SplitTail(t).2 == "" || SplitTail(t).2[0] == '#'
  {
    var h := FirstOf(t, {'#'});
    var pre := t[..h];
    var q := FirstOf(pre, {'?'});
    var path, search := t[..q], t[q..h];
    assert path == pre[..q] && search == pre[q..];
    NoneOfPrefix(t, {'#'}, h);
    NoneOfPrefix(pre, {'?'}, q);
    assert NoneOf(path, {'?', '#'}) by {
      forall i | 0 <= i < q ensures path[i] !in {'?', '#'} { assert path[i] == pre[i]; }
    }
    assert NoneOf(search, {'#'}) by {
      forall i | 0 <= i < |search| ensures search[i] != '#' { assert search[i] == pre[q + i]; }
    }
    if q < h { assert search[0] == pre[q]; }
  }

  /** Lower-casing an authority keeps it free of separators and is idempotent. */
  lemma LowerHost(host: string)
    requires NoneOf(host, {'/', '?', '#'})
    ensures NoneOf(Lower(host), {'/', '?', '#'}) && Lower(Lower(host)) == Lower(host)
  {
    var l := Lower(host);
    forall i | 0 <= i < |l| ensures l[i] !in {'/', '?', '#'} && LowerChar(l[i]) == l[i] {
      assert l[i] == LowerChar(host[i]);
      assert host[i] !in {'/', '?', '#'};
    }
  }

  /** A non-empty pathname after an authority starts with `/`; none holds `?` or `#`. */
  lemma AuthorityPathname(t: string)
    requires t == [] || t[0] in {'/', '?', '#'}
    ensures SplitTail(t).0 != "" ==> StartsWith(SplitTail(t).0, "/")
    ensures NoneOf(SplitTail(t).0, {'?', '#'})
  {
    SplitTailShape(t);
  }

  /** What `ParseAuthority` builds from a valid protocol is well formed, whatever the rest of the text. */
  lemma ParseAuthorityWellFormed(protocol: string, rest: string)
    requires ValidProtocol(protocol)
    ensures WellFormed(ParseAuthority(protocol, rest))
  {
    var e := FirstOf(rest, {'/', '?', '#'});
    var host, t := rest[..e], rest[e..];
    var path := SplitTail(t).0;
    var u := ParseAuthority(protocol, rest);
    assert u == UrlParts(protocol, Some(Lower(host)), if path == "" then "/" else path, SplitTail(t).1, SplitTail(t).2);
    NoneOfPrefix(rest, {'/', '?', '#'}, e);
    LowerHost(host);
    if t != [] { assert t[0] == rest[e]; }
    AuthorityPathname(t);
    if path == "" {
      assert u.pathname == "/";
      assert NoneOf("/", {'?', '#'}) && StartsWith("/", "/");
    }
    assert StartsWith(u.pathname, "/") && NoneOf(u.pathname, {'?', '#'});
    SplitTailShape(t);
  }

  /** `url.parse` of any text that begins with `scheme://` gives a well-formed record. */
  lemma ParseWellFormed(s: string)
    requires 0 < AlnumRun(s) && StartsWith(s[AlnumRun(s)..], "://")
    ensures WellFormed(ParseUrl(s))
  {
    var n := AlnumRun(s);
    assert forall i :: 0 <= i < n ==> IsAlnum(s[..n][i]);
    LowerProtocol(s[..n]);
    ParseAuthorityWellFormed(Lower(s[..n]) + ":", s[n + 3..]);
  }

  /** Letters and digits, lower-cased, with a colon after them, make a valid protocol. */
  lemma LowerProtocol(p: string)
    requires 0 < |p| && forall i :: 0 <= i < |p| ==> IsAlnum(p[i])
    ensures ValidProtocol(Lower(p) + ":")
  {
    var protocol := Lower(p) + ":";
    forall i | 0 <= i < |protocol| - 1 ensures IsAlnum(protocol[i]) && LowerChar(protocol[i]) == protocol[i] {
      assert protocol[i] == LowerChar(p[i]);
    }
    assert Lower(protocol) == protocol;
  }

  /** The `url_protocol` regex captures `p` in front of `://`. */
  lemma SchemeOfPrefixed(p: string, rest: string)
    requires 0 < |p| && forall i :: 0 <= i < |p| ==> IsAlnum(p[i])
    ensures SchemeOf(p + "://" + rest) == Some(p)
  {
    var s := p + "://" + rest;
    assert s[..|p|] == p;
    assert s[|p|..][..3] == "://";
    SchemeSpec(s);
  }

  /** After the captured scheme comes `://` or `//`, so the character after next is a `/`. */
  lemma SchemeSlash(s: string)
    ensures SchemeOf(s).Some? ==> var n := |SchemeOf(s).value|; n + 1 < |s| && s[n + 1] == '/'
  {
    SchemeSpec(s);
    if SchemeOf(s).Some? {
      var p := SchemeOf(s).value;
      assert SchemePrefix(s, p);
      assert s[|p| + 1] == s[|p|..][1];
    }
  }

  /** Text that does not start with a letter or digit is never matched by the `url_protocol` regex. */
  lemma SchemeNeedsAlnum(s: string)
    requires s != [] && !IsAlnum(s[0])
    ensures SchemeOf(s).None?
  {
  }

  /** Text with no `/` at all is never matched by the `url_protocol` regex. */
  lemma SchemeNeedsSlash(s: string)
    requires NoneOf(s, {'/'})
    ensures SchemeOf(s).None?
  {
    SchemeSlash(s);
  }

  // ---------------------------------------------------------------------------
  // path.resolve
  // ---------------------------------------------------------------------------

  /** `s.split('/')`. */
  function Split(s: string): (r: seq<string>)
    ensures |r| > 0
    decreases |s|
  {
    var i := FirstOf(s, {'/'});
    if i == |s| then [s] else [s[..i]] + Split(s[i + 1..])
  }

  /** `segments.join('/')`. */
  function Join(segments: seq<string>): string
    decreases |segments|
  {
    if segments == [] then ""
    else if |segments| == 1 then segments[0]
    else segments[0] + "/" + Join(segments[1..])
  }

  /** One step of normalisation: empty and `.` segments vanish, `..` drops the last kept segment. */
  function Step(stack: seq<string>, segment: string): seq<string> {
    if segment == "" || segment == "." then stack
    else if segment == ".." then (if stack == [] then [] else stack[..|stack| - 1])
    else stack + [segment]
  }

  function Normalize(stack: seq<string>, segments: seq<string>): seq<string>
    decreases |segments|
  {
    if segments == [] then stack else Normalize(Step(stack, segments[0]), segments[1..])
  }

  /**
   * `path.resolve(base, v)`: v when it is absolute, otherwise v below base, normalised.
   * A relative base would be resolved against the process's working directory; the model
   * takes that directory to be `/`.
   */
  function PathResolve(base: string, v: string): string {
    var joined := if StartsWith(v, "/") then v else base + "/" + v;
    "/" + Join(Normalize([], Split(joined)))
  }

  /** A segment that survives normalisation. */
  predicate Proper(segment: string) {
    segment != "" && segment != "." && segment != ".."
  }

  lemma {:induction false} NormalizeProper(stack: seq<string>, segments: seq<string>)
    requires forall i :: 0 <= i < |stack| ==> Proper(stack[i])
    ensures forall i :: 0 <= i < |Normalize(stack, segments)| ==> Proper(Normalize(stack, segments)[i])
    decreases |segments|
  {
    if segments != [] {
      var next := Step(stack, segments[0]);
      assert forall i :: 0 <= i < |next| ==> Proper(next[i]) by {
        if segments[0] == ".." && stack != [] {
          assert forall i :: 0 <= i < |next| ==> next[i] == stack[i];
        }
      }
      NormalizeProper(next, segments[1..]);
    }
  }

  lemma {:induction false} NormalizeAppend(stack: seq<string>, a: seq<string>, b: seq<string>)
    ensures Normalize(stack, a + b) == Normalize(Normalize(stack, a), b)
    decreases |a|
  {
    if a != [] {
      var ab := a + b;
      assert ab[0] == a[0] && ab[1..] == a[1..] + b;
      calc {
        Normalize(stack, ab);
        Normalize(Step(stack, a[0]), a[1..] + b);
        { NormalizeAppend(Step(stack, a[0]), a[1..], b); }
        Normalize(Normalize(Step(stack, a[0]), a[1..]), b);
      }
    } else {
      assert a + b == b;
    }
  }

  /** Two slash-free segments joined by `/` split back into the two. */
  lemma SplitTwo(a: string, b: string)
    requires FirstOf(a, {'/'}) == |a| && NoneOf(b, {'/'})
    ensures Split(a + "/" + b) == [a, b]
  {
    var s := a + "/" + b;
    FirstOfIs(s, {'/'}, |a|);
    assert s[..|a|] == a && s[|a| + 1..] == b;
    FirstOfIs(b, {'/'}, |b|);
    assert Split(b) == [b];
  }

  lemma {:induction false} SplitAppend(a: string, b: string)
    requires NoneOf(b, {'/'})
    ensures Split(a + "/" + b) == Split(a) + [b]
    decreases |a|
  {
    var s := a + "/" + b;
    var i := FirstOf(a, {'/'});
    if i == |a| {
      SplitTwo(a, b);
    } else {
      FirstOfIs(s, {'/'}, i);
      assert s[..i] == a[..i];
      assert s[i + 1..] == a[i + 1..] + "/" + b;
      assert Split(s) == [a[..i]] + Split(a[i + 1..] + "/" + b);
      assert Split(a) == [a[..i]] + Split(a[i + 1..]);
      SplitAppend(a[i + 1..], b);
    }
  }

  /**
   * The result of resolving is normalised: it starts with `/` and none of its segments is
   * empty, `.` or `..`.
   */
  lemma ResolveNormal(base: string, v: string)
    ensures StartsWith(PathResolve(base, v), "/")
    ensures exists segments: seq<string> ::
              PathResolve(base, v) == "/" + Join(segments) &&
              forall i :: 0 <= i < |segments| ==> Proper(segments[i])
  {
    var joined := if StartsWith(v, "/") then v else base + "/" + v;
    NormalizeProper([], Split(joined));
  }

  /** An absolute value does not depend on the base. */
  lemma ResolveAbsolute(base1: string, base2: string, v: string)
    requires StartsWith(v, "/")
    ensures PathResolve(base1, v) == PathResolve(base2, v)
  {
  }

  /**
   * The base is treated as a directory, not as a file to be replaced: a plain name is
   * appended below the base's own normalised segments (`qux.jpg` on `/bar` gives
   * `/bar/qux.jpg`).
   */
  lemma ResolveBelowBase(base: string, name: string)
    requires Proper(name) && NoneOf(name, {'/'})
    ensures PathResolve(base, name) == "/" + Join(Normalize([], Split(base)) + [name])
  {
    SplitAppend(base, name);
    NormalizeAppend([], Split(base), [name]);
  }

  /** An absolute single name resolves to itself, whatever the base. */
  lemma ResolveRootName(base: string, name: string)
    requires Proper(name) && NoneOf(name, {'/'})
    ensures PathResolve(base, "/" + name) == "/" + name
  {
    assert "/" + name == "" + "/" + name;
    SplitAppend("", name);
    assert Split("") == [""];
    assert Normalize([], [""] + [name]) == [name] by {
      NormalizeAppend([], [""], [name]);
    }
  }

  /** A one-directory base `/dir` splits into an empty segment and `dir`, and normalises to `dir`. */
  lemma SplitDir(dir: string)
    requires Proper(dir) && NoneOf(dir, {'/'})
    ensures Split("/" + dir) == [""] + [dir] && Normalize([], Split("/" + dir)) == [dir]
  {
    assert "/" + dir == "" + "/" + dir;
    SplitAppend("", dir);
    assert Split("") == [""];
    NormalizeAppend([], [""], [dir]);
  }

  /** `..` climbs out of the one directory of the base: `../name` on `/dir` is `/name`. */
  lemma ResolveParent(dir: string, name: string)
    requires Proper(dir) && NoneOf(dir, {'/'}) && Proper(name) && NoneOf(name, {'/'})
    ensures PathResolve("/" + dir, "../" + name) == "/" + name
  {
    var joined := "/" + dir + "/" + ("../" + name);
    assert joined == ("" + "/" + dir) + "/" + ".." + "/" + name;
    SplitAppend("", dir);
    SplitAppend("" + "/" + dir, "..");
    SplitAppend("" + "/" + dir + "/" + "..", name);
    assert Split("") == [""];
    assert Split(joined) == [""] + [dir] + [".."] + [name];
    NormalizeAppend([], [""] + [dir] + [".."], [name]);
    NormalizeAppend([], [""] + [dir], [".."]);
    NormalizeAppend([], [""], [dir]);
  }

  /** A doubled slash in the base is an empty segment and vanishes: `c` on `a//b` is `/a/b/c`. */
  lemma ResolveDoubleSlash(a: string, b: string, c: string)
    requires Proper(a) && NoneOf(a, {'/'}) && Proper(b) && NoneOf(b, {'/'}) && Proper(c) && NoneOf(c, {'/'})
    ensures PathResolve(a + "//" + b, c) == "/" + a + "/" + b + "/" + c
  {
    assert !StartsWith(c, "/") by { assert c[0] != '/'; }
    var base := a + "//" + b;
    assert PathResolve(base, c) == "/" + Join(Normalize([], Split(base + "/" + c)));
    SplitDoubleSlash(a, b, c);
    NormalizeDoubleSlash(a, b, c);
    JoinThree(a, b, c);
  }

  lemma JoinThree(a: string, b: string, c: string)
    ensures Join([a, b, c]) == a + "/" + b + "/" + c
  {
    var abc: seq<string> := [a, b, c];
    assert abc[1..] == [b, c];
    var bc: seq<string> := [b, c];
    assert bc[1..] == [c];
    assert Join(bc) == b + "/" + c;
  }

  lemma SplitDoubleSlash(a: string, b: string, c: string)
    requires NoneOf(a, {'/'}) && NoneOf(b, {'/'}) && NoneOf(c, {'/'})
    ensures Split(a + "//" + b + "/" + c) == [a, "", b, c]
  {
    assert a + "//" + b + "/" + c == a + "/" + "" + "/" + b + "/" + c;
    FirstOfIs(a, {'/'}, |a|);
    assert Split(a) == [a];
    SplitAppend(a, "");
    SplitAppend(a + "/" + "", b);
    SplitAppend(a + "/" + "" + "/" + b, c);
  }

  lemma NormalizeDoubleSlash(a: string, b: string, c: string)
    requires Proper(a) && Proper(b) && Proper(c)
    ensures Normalize([], [a, "", b, c]) == [a, b, c]
  {
    var s0: seq<string> := [a, "", b, c];
    assert s0[0] == a && s0[1..] == ["", b, c];
    assert Step([], a) == [a];
    assert Normalize([], s0) == Normalize([a], ["", b, c]);
    var s1: seq<string> := ["", b, c];
    assert s1[0] == "" && s1[1..] == [b, c];
    assert Normalize([a], s1) == Normalize([a], [b, c]);
    var s2: seq<string> := [b, c];
    assert s2[0] == b && s2[1..] == [c];
    assert Step([a], b) == [a, b];
    assert Normalize([a], s2) == Normalize([a, b], [c]);
    var s3: seq<string> := [c];
    assert s3[0] == c && s3[1..] == [];
    assert Step([a, b], c) == [a, b, c];
    assert Normalize([a, b], s3) == Normalize([a, b, c], []);
  }

  // ---------------------------------------------------------------------------
  // Page.prototype.buildURL
  // ---------------------------------------------------------------------------

  /** A split-off field written back with its separator, or nothing when it is missing or empty. */
  function Marked(mark: char, field: Option<string>): string {
    if field.Some? && field.value != "" then [mark] + field.value else ""
  }

  /**
   * `buildURL({path: path})`: the page's parts with `path` split by its first `#` into
   * pathname-and-query and hash, and that by its first `?` into pathname and search;
   * the page's own search and hash are overwritten.
   */
  function BuildUrl(page: UrlParts, path: string): string {
    var beforeHash := Before(path, '#');
    Format(page.(pathname := Before(beforeHash, '?'),
                 search := Marked('?', SecondField(beforeHash, '?')),
                 hash := Marked('#', SecondField(path, '#'))))
  }

  lemma BeforeNoneOf(s: string, c: char)
    ensures NoneOf(Before(s, c), {c})
    ensures StartsWith(s, Before(s, c))
  {
  }

  /**
   * Round trip of `buildURL`: parsing the built URL gives back the page's protocol and
   * host and exactly the pathname, query and fragment that were split off `path`.
   */
  lemma BuildUrlRoundTrip(page: UrlParts, path: string)
    requires WellFormed(page) && StartsWith(path, "/")
    ensures var beforeHash := Before(path, '#');
            ParseUrl(BuildUrl(page, path)) ==
            UrlParts(page.protocol, page.host, Before(beforeHash, '?'),
                     Marked('?', SecondField(beforeHash, '?')), Marked('#', SecondField(path, '#')))
  {
    var beforeHash := Before(path, '#');
    var pathname := Before(beforeHash, '?');
    var query := SecondField(beforeHash, '?');
    BeforeNoneOf(path, '#');
    BeforeNoneOf(beforeHash, '?');
    assert path[0] == '/';
    assert beforeHash[0] == '/' by { assert path[..|beforeHash|] == beforeHash; }
    assert pathname[0] == '/' by { assert beforeHash[..|pathname|] == pathname; }
    assert NoneOf(pathname, {'#'}) by {
      forall i | 0 <= i < |pathname| ensures pathname[i] != '#' {
        assert pathname[i] == beforeHash[i];
      }
    }
    if query.Some? {
      var i := FirstOf(beforeHash, {'?'});
      var q := query.value;
      assert q == Before(beforeHash[i + 1..], '?');
      assert NoneOf(q, {'#'}) by {
        forall j | 0 <= j < |q| ensures q[j] != '#' {
          assert q[j] == beforeHash[i + 1 + j];
        }
      }
    }
    var u := page.(pathname := pathname, search := Marked('?', query), hash := Marked('#', SecondField(path, '#')));
    assert StartsWith(u.pathname, "/") && NoneOf(u.pathname, {'?', '#'});
    assert u.search == "" || (u.search[0] == '?' && NoneOf(u.search, {'#'}));
    assert u.hash == "" || u.hash[0] == '#';
    ParseFormat(u);
  }

  /** Without protocol and host, `buildURL` of a rooted path is a rooted path. */
  lemma BuildUrlWithoutHost(page: UrlParts, path: string)
    requires page.protocol == "" && page.host.None? && StartsWith(path, "/")
    ensures StartsWith(BuildUrl(page, path), "/")
  {
    var beforeHash := Before(path, '#');
    BeforeHead(path, '#');
    var pathname := Before(beforeHash, '?');
    BeforeHead(beforeHash, '?');
    var u := page.(pathname := pathname, search := Marked('?', SecondField(beforeHash, '?')), hash := Marked('#', SecondField(path, '#')));
    assert BuildUrl(page, path) == Format(u);
    assert Format(u) == u.pathname + u.search + u.hash;
    assert (u.pathname + u.search + u.hash)[0] == '/';
  }

  /** Text that does not start with `c` keeps its first character before the first `c`. */
  lemma BeforeHead(s: string, c: char)
    requires s != [] && s[0] != c
    ensures Before(s, c) != [] && Before(s, c)[0] == s[0]
  {
  }

  /** A path without `?` or `#` becomes the pathname; the page's search and hash are dropped. */
  lemma BuildUrlPlain(page: UrlParts, path: string)
    requires NoneOf(path, {'?', '#'})
    ensures BuildUrl(page, path) == Format(page.(pathname := path, search := "", hash := ""))
  {
    FirstOfIs(path, {'#'}, |path|);
    FirstOfIs(path, {'?'}, |path|);
  }

  /** A text with exactly one `c` splits there: what comes before it, and the field after it. */
  lemma SplitAtMark(a: string, c: char, b: string)
    requires NoneOf(a, {c}) && NoneOf(b, {c})
    ensures Before(a + [c] + b, c) == a && SecondField(a + [c] + b, c) == Some(b)
  {
    var s := a + [c] + b;
    FirstOfIs(s, {c}, |a|);
    assert s[..|a|] == a && s[|a| + 1..] == b;
    FirstOfIs(b, {c}, |b|);
    assert b[..|b|] == b;
  }

  /** A path `pathname?query#fragment` is split at its first `?` and first `#`. */
  lemma BuildUrlFields(page: UrlParts, pathname: string, query: string, fragment: string)
    requires NoneOf(pathname, {'?', '#'}) && NoneOf(query, {'?', '#'}) && NoneOf(fragment, {'#'})
    ensures BuildUrl(page, pathname + "?" + query + "#" + fragment) ==
            Format(page.(pathname := pathname, search := Marked('?', Some(query)), hash := Marked('#', Some(fragment))))
  {
    var beforeHash := pathname + "?" + query;
    NoneOfAppend(pathname, "?", {'#'});
    NoneOfAppend(pathname + "?", query, {'#'});
    SplitAtMark(beforeHash, '#', fragment);
    SplitAtMark(pathname, '?', query);
  }
}
