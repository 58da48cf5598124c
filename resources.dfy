/**
 * The resource list of `Page.prototype.getResources`: each scanned attribute value made
 * absolute against the page's parsed URL.
 */
module Resources {

  import opened Wrappers
  import opened Strings
  import opened Urls
  import Scan

  /**
   * One value as `getResources` resolves it: a protocol-relative `//host/...` gets the page's
   * protocol, a value the `url_protocol` regex matches is kept, anything else is resolved
   * with `path.resolve` below the page's pathname and rebuilt with `buildURL`.
   */
  function Resolve(page: UrlParts, v: string): string {
    if StartsWith(v, "//") then ProtocolText(page.protocol) + v
    else if SchemeOf(v).Some? then v
    else BuildUrl(page, PathResolve(page.pathname, v))
  }

  /** `url_parts.protocol` in a string concatenation: a page without a scheme has `null`. */
  function ProtocolText(protocol: string): string {
    if protocol == "" then "null" else protocol
  }

  function ResolveAll(page: UrlParts, values: seq<string>): seq<string> {
    seq(|values|, i requires 0 <= i < |values| => Resolve(page, values[i]))
  }

  /** `getResources()`: the body's attribute values in document order, resolved. */
  function ResourcesOf(page: UrlParts, body: string): seq<string> {
    ResolveAll(page, Scan.Values(body))
  }

  /** The scheme named by a valid protocol field, without its colon. */
  function SchemeName(protocol: string): string
    requires |protocol| > 0
  {
    protocol[..|protocol| - 1]
  }

  /**
   * Against a well-formed page every resolved value is absolute: the `url_protocol` regex
   * matches it, and a value that was not already absolute carries the page's own scheme.
   */
  lemma ResolveAbsolute(page: UrlParts, v: string)
    requires WellFormed(page)
    ensures SchemeOf(Resolve(page, v)).Some?
    ensures StartsWith(v, "//") || SchemeOf(v).None? ==> SchemeOf(Resolve(page, v)) == Some(SchemeName(page.protocol))
    ensures !StartsWith(Resolve(page, v), "//")
  {
    if StartsWith(v, "//") {
      AbsoluteFromProtocolRelative(page, v);
    } else if SchemeOf(v).Some? {
      ResolveKeepsAbsolute(page, v);
      SchemeSpec(v);
      var q := SchemeOf(v).value;
      assert SchemePrefix(v, q);
      assert v[0] == q[0];
    } else {
      AbsoluteFromRelative(page, v);
    }
  }

  lemma AbsoluteFromProtocolRelative(page: UrlParts, v: string)
    requires WellFormed(page) && StartsWith(v, "//")
    ensures SchemeOf(Resolve(page, v)) == Some(SchemeName(page.protocol))
    ensures !StartsWith(Resolve(page, v), "//")
  {
    var p := SchemeName(page.protocol);
    ProtocolName(page.protocol);
    ResolveProtocolRelative(page, v);
    var r := Resolve(page, v);
    assert page.protocol == p + ":";
    assert r == p + "://" + v[2..] by { assert v == "//" + v[2..]; }
    SchemeOfPrefixed(p, v[2..]);
    assert r[0] == p[0];
  }

  lemma AbsoluteFromRelative(page: UrlParts, v: string)
    requires WellFormed(page) && !StartsWith(v, "//") && SchemeOf(v).None?
    ensures SchemeOf(Resolve(page, v)) == Some(SchemeName(page.protocol))
    ensures !StartsWith(Resolve(page, v), "//")
  {
    var p := SchemeName(page.protocol);
    ProtocolName(page.protocol);
    ResolveRelativePath(page, v);
    var path := PathResolve(page.pathname, v);
    var beforeHash := Before(path, '#');
    var u := page.(pathname := Before(beforeHash, '?'),
                   search := Marked('?', SecondField(beforeHash, '?')),
                   hash := Marked('#', SecondField(path, '#')));
    assert Resolve(page, v) == Format(u);
    FormatSplit(u);
    SchemeOfPrefixed(p, u.host.value + (u.pathname + u.search + u.hash));
    assert Resolve(page, v)[0] == p[0];
  }

  /** Resolving is idempotent: a resource resolved once is left alone by a second pass. */
  lemma ResolveIdempotent(page: UrlParts, v: string)
    requires WellFormed(page)
    ensures Resolve(page, Resolve(page, v)) == Resolve(page, v)
  {
    ResolveAbsolute(page, v);
  }

  /**
   * A relative value becomes the page's protocol and host with the pathname, query and
   * fragment of `path.resolve(pathname, v)`; the page's own query and fragment are gone.
   */
  lemma ResolveRelative(page: UrlParts, v: string)
    requires WellFormed(page) && !StartsWith(v, "//") && SchemeOf(v).None?
    ensures var path := PathResolve(page.pathname, v);
            var beforeHash := Before(path, '#');
            ParseUrl(Resolve(page, v)) ==
            UrlParts(page.protocol, page.host, Before(beforeHash, '?'),
                     Marked('?', SecondField(beforeHash, '?')), Marked('#', SecondField(path, '#')))
  {
    ResolveNormal(page.pathname, v);
    BuildUrlRoundTrip(page, PathResolve(page.pathname, v));
  }

  /** Resources come one per scanned value, in the same order, each resolved and absolute. */
  lemma ResourcesSpec(page: UrlParts, body: string)
    requires WellFormed(page)
    ensures var values := Scan.Values(body);
            var rs := ResourcesOf(page, body);
            |rs| == |values| &&
            forall i :: 0 <= i < |rs| ==> rs[i] == Resolve(page, values[i]) && SchemeOf(rs[i]).Some?
  {
    var values := Scan.Values(body);
    forall i | 0 <= i < |values| ensures SchemeOf(Resolve(page, values[i])).Some? {
      ResolveAbsolute(page, values[i]);
    }
  }

  // The three rules one at a time, so that a concrete value unfolds only its own rule.

  lemma ResolveProtocolRelative(page: UrlParts, v: string)
    requires StartsWith(v, "//")
    ensures page.protocol != "" ==> Resolve(page, v) == page.protocol + v
    ensures page.protocol == "" ==> Resolve(page, v) == "null" + v
  {
  }

  lemma ResolveKeepsAbsolute(page: UrlParts, v: string)
    requires !StartsWith(v, "//") && SchemeOf(v).Some?
    ensures Resolve(page, v) == v
  {
  }

  lemma ResolveRelativePath(page: UrlParts, v: string)
    requires !StartsWith(v, "//") && SchemeOf(v).None?
    ensures Resolve(page, v) == BuildUrl(page, PathResolve(page.pathname, v))
  {
  }

  /**
   * On a page without a protocol and host (a URL the `url_protocol` regex accepts without
   * `://`, such as `http//foo.com`), a value that was not already absolute resolves to a URL
   * without a host: `null//...` for a protocol-relative value, a rooted path otherwise.
   */
  lemma ResolveWithoutHost(page: UrlParts, v: string)
    requires page.protocol == "" && page.host.None?
    requires StartsWith(v, "//") || SchemeOf(v).None?
    ensures ParseUrl(Resolve(page, v)).host.None?
    ensures !StartsWith(v, "//") ==> StartsWith(Resolve(page, v), "/")
  {
    if StartsWith(v, "//") {
      ResolveProtocolRelative(page, v);
      NullPrefixedNoHost(v);
    } else {
      var path := PathResolve(page.pathname, v);
      ResolveNormal(page.pathname, v);
      ResolveRelativePath(page, v);
      BuildUrlWithoutHost(page, path);
      RootedNoHost(BuildUrl(page, path));
    }
  }

  /** A rooted path parses without a host. */
  lemma RootedNoHost(r: string)
    requires StartsWith(r, "/")
    ensures ParseUrl(r).host.None?
  {
    assert r[0] == '/';
    ParseNoAuthority(r, 0);
  }

  /** `null//host/...` has no `://`, so it parses without a host. */
  lemma NullPrefixedNoHost(v: string)
    requires StartsWith(v, "//")
    ensures ParseUrl("null" + v).host.None?
  {
    var r := "null" + v;
    assert r[4..][0] == '/';
    ParseNoAuthority(r, 4);
  }

  /** `path.resolve("/dir", name)` for a plain name is `/dir/name`. */
  lemma PathResolveName(dir: string, name: string)
    requires Proper(dir) && NoneOf(dir, {'/', '?', '#'})
    requires Proper(name) && NoneOf(name, {'/', '?', '#'})
    ensures PathResolve("/" + dir, name) == "/" + dir + "/" + name
  {
    ResolveBelowBase("/" + dir, name);
    SplitDir(dir);
    assert Join([dir, name]) == dir + "/" + name;
  }

  /** A plain name on a page whose pathname is one directory `/dir` lands inside that directory. */
  lemma ResolveName(page: UrlParts, dir: string, name: string)
    requires page.pathname == "/" + dir && Proper(dir) && NoneOf(dir, {'/', '?', '#'})
    requires Proper(name) && NoneOf(name, {'/', '?', '#'})
    ensures Resolve(page, name) == Format(page.(pathname := "/" + dir + "/" + name, search := "", hash := ""))
  {
    SchemeNeedsSlash(name);
    PathResolveName(dir, name);
    ResolveRelativePath(page, name);
    NoneOfAppend("/", dir, {'?', '#'});
    NoneOfAppend("/" + dir, "/", {'?', '#'});
    NoneOfAppend("/" + dir + "/", name, {'?', '#'});
    BuildUrlPlain(page, "/" + dir + "/" + name);
  }

  /** A rooted name ignores the page's pathname. */
  lemma ResolveRooted(page: UrlParts, name: string)
    requires Proper(name) && NoneOf(name, {'/', '?', '#'})
    ensures Resolve(page, "/" + name) == Format(page.(pathname := "/" + name, search := "", hash := ""))
  {
    var v := "/" + name;
    assert !StartsWith(v, "//") by { assert v[1] == name[0]; }
    SchemeNeedsAlnum(v);
    ResolveRootName(page.pathname, name);
    NoneOfAppend("/", name, {'?', '#'});
    BuildUrlPlain(page, v);
  }

  /** `../name?query#fragment` below `/dir` climbs to `/name`, query and fragment untouched. */
  lemma PathResolveUp(dir: string, name: string, query: string, fragment: string)
    requires Proper(dir) && NoneOf(dir, {'/'})
    requires Proper(name) && NoneOf(name, {'/', '?', '#'})
    requires NoneOf(query, {'/', '?', '#'}) && NoneOf(fragment, {'/', '#'})
    ensures PathResolve("/" + dir, "../" + name + "?" + query + "#" + fragment) == ("/" + name) + "?" + query + "#" + fragment
  {
    var last := name + "?" + query + "#" + fragment;
    assert "../" + name + "?" + query + "#" + fragment == "../" + last;
    NoneOfAppend(name, "?", {'/'});
    NoneOfAppend(name + "?", query, {'/'});
    NoneOfAppend(name + "?" + query, "#", {'/'});
    NoneOfAppend(name + "?" + query + "#", fragment, {'/'});
    ResolveParent(dir, last);
  }

  /**
   * `../name?query#fragment` on a page whose pathname is one directory `/dir` climbs out of
   * it and keeps its own query and fragment.
   */
  lemma ResolveUp(page: UrlParts, dir: string, name: string, query: string, fragment: string)
    requires page.pathname == "/" + dir && Proper(dir) && NoneOf(dir, {'/'})
    requires Proper(name) && NoneOf(name, {'/', '?', '#'})
    requires NoneOf(query, {'/', '?', '#'}) && NoneOf(fragment, {'/', '#'})
    ensures Resolve(page, "../" + name + "?" + query + "#" + fragment) ==
            Format(page.(pathname := "/" + name, search := Marked('?', Some(query)), hash := Marked('#', Some(fragment))))
  {
    var v := "../" + name + "?" + query + "#" + fragment;
    SchemeNeedsAlnum(v);
    assert v[0] == '.';
    ResolveRelativePath(page, v);
    PathResolveUp(dir, name, query, fragment);
    NoneOfAppend("/", name, {'?', '#'});
    BuildUrlFields(page, "/" + name, query, fragment);
  }

  // ---------------------------------------------------------------------------
  // The resolutions of the page `http://foo.com/bar`
  // ---------------------------------------------------------------------------

  const FooBar := UrlParts("http:", Some("foo.com"), "/bar", "", "")

  lemma FooBarParsed()
    ensures ParseUrl("http://foo.com/bar") == FooBar && WellFormed(FooBar)
  {
    assert Format(FooBar) == "http://foo.com/bar";
    ParseFormat(FooBar);
  }

  lemma FormatBelowPageText()
    ensures Format(FooBar.(pathname := "/" + "bar" + "/" + "qux.jpg", search := "", hash := "")) == "http://foo.com/bar/qux.jpg"
  {
  }

  lemma ResolveBelowPageParts()
    ensures Resolve(FooBar, "qux.jpg") == Format(FooBar.(pathname := "/" + "bar" + "/" + "qux.jpg", search := "", hash := ""))
  {
    ResolveName(FooBar, "bar", "qux.jpg");
  }

  /** `qux.jpg` lands below `/bar`, which is treated as a directory. */
  lemma ResolveBelowPage()
    ensures Resolve(FooBar, "qux.jpg") == "http://foo.com/bar/qux.jpg"
  {
    ResolveBelowPageParts();
    FormatBelowPageText();
  }

  lemma FormatRootText()
    ensures Format(FooBar.(pathname := "/" + "foobar.jpg", search := "", hash := "")) == "http://foo.com/foobar.jpg"
  {
  }

  lemma ResolveRootParts()
    ensures Resolve(FooBar, "/foobar.jpg") == Format(FooBar.(pathname := "/" + "foobar.jpg", search := "", hash := ""))
  {
    assert "/foobar.jpg" == "/" + "foobar.jpg";
    ResolveRooted(FooBar, "foobar.jpg");
  }

  /** `/foobar.jpg` is rooted: the page's pathname plays no part. */
  lemma ResolveRootExample()
    ensures Resolve(FooBar, "/foobar.jpg") == "http://foo.com/foobar.jpg"
  {
    ResolveRootParts();
    FormatRootText();
  }

  lemma ResolveProtocolRelativeExample()
    ensures Resolve(FooBar, "//foo.com/style.css") == "http://foo.com/style.css"
  {
    ResolveProtocolRelative(FooBar, "//foo.com/style.css");
  }

  lemma FormatParentText()
    ensures Format(FooBar.(pathname := "/" + "baz.jpg", search := "?foo", hash := "#bar")) == "http://foo.com/baz.jpg?foo#bar"
  {
  }

  lemma ParentValueParts()
    ensures "../baz.jpg?foo#bar" == "../" + "baz.jpg" + "?" + "foo" + "#" + "bar"
    ensures Marked('?', Some("foo")) == "?foo" && Marked('#', Some("bar")) == "#bar"
    ensures Proper("bar") && NoneOf("bar", {'/'}) && NoneOf("bar", {'/', '#'})
    ensures Proper("baz.jpg") && NoneOf("baz.jpg", {'/', '?', '#'}) && NoneOf("foo", {'/', '?', '#'})
  {
  }

  lemma ResolveParentParts()
    ensures Resolve(FooBar, "../baz.jpg?foo#bar") ==
            Format(FooBar.(pathname := "/" + "baz.jpg", search := "?foo", hash := "#bar"))
  {
    ParentValueParts();
    ResolveUp(FooBar, "bar", "baz.jpg", "foo", "bar");
  }

  /** `..` climbs above `/bar`; the query and fragment of the value are kept. */
  lemma ResolveParentExample()
    ensures Resolve(FooBar, "../baz.jpg?foo#bar") == "http://foo.com/baz.jpg?foo#bar"
  {
    ResolveParentParts();
    FormatParentText();
  }

  lemma ResolveAbsoluteExample()
    ensures Resolve(FooBar, "https://baz.com") == "https://baz.com"
  {
    assert "https://baz.com" == "https" + "://" + "baz.com";
    SchemeOfPrefixed("https", "baz.com");
    ResolveKeepsAbsolute(FooBar, "https://baz.com");
  }

  // ---------------------------------------------------------------------------
  // The resolutions of the page `http//foo.com`, which has neither protocol nor host
  // ---------------------------------------------------------------------------

  const NoHost := UrlParts("", None, "http" + "//" + "foo.com", "", "")

  /** Without `://` the whole text is the pathname. */
  lemma NoHostParsed()
    ensures ParseUrl("http" + "//" + "foo.com") == NoHost
  {
    var s := "http" + "//" + "foo.com";
    assert s[4..][0] == '/';
    assert NoneOf(s, {'?', '#'});
    ParseNoAuthority(s, 4);
  }

  /** A protocol-relative value is written after the page's missing protocol, `null`. */
  lemma NoHostProtocolRelative()
    ensures Resolve(NoHost, "//x.com/a.js") == "null//x.com/a.js"
  {
  }

  /** `path.resolve("http//foo.com", "qux.jpg")` from `/`: the empty segment between the slashes vanishes. */
  lemma NoHostPathText()
    ensures PathResolve("http" + "//" + "foo.com", "qux.jpg") == "/" + "http" + "/" + "foo.com" + "/" + "qux.jpg"
  {
    assert NoneOf("http", {'/'}) && NoneOf("foo.com", {'/'}) && NoneOf("qux.jpg", {'/'});
    ResolveDoubleSlash("http", "foo.com", "qux.jpg");
  }

  /** `buildURL` on the page `http//foo.com` writes a rooted path as it is, without `//`. */
  lemma NoHostBuildText()
    ensures BuildUrl(NoHost, "/" + "http" + "/" + "foo.com" + "/" + "qux.jpg") == "/" + "http" + "/" + "foo.com" + "/" + "qux.jpg"
  {
    var cs := {'?', '#'};
    NoneOfAppend("/", "http", cs);
    NoneOfAppend("/" + "http", "/", cs);
    NoneOfAppend("/" + "http" + "/", "foo.com", cs);
    NoneOfAppend("/" + "http" + "/" + "foo.com", "/", cs);
    NoneOfAppend("/" + "http" + "/" + "foo.com" + "/", "qux.jpg", cs);
    BuildUrlPlain(NoHost, "/" + "http" + "/" + "foo.com" + "/" + "qux.jpg");
  }

  /** A plain name on the page `http//foo.com` is written as a rooted path, without `//`. */
  lemma NoHostRelative()
    ensures Resolve(NoHost, "qux.jpg") == "/" + "http" + "/" + "foo.com" + "/" + "qux.jpg"
  {
    SchemeNeedsSlash("qux.jpg");
    ResolveRelativePath(NoHost, "qux.jpg");
    NoHostPathText();
    NoHostBuildText();
  }
}
