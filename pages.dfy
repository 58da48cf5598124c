/**
 * `Page` of lib/page.js: a loaded page with its parsed URL and body, the resource list
 * it computes once and keeps, and the analyses built on it. The DNS resolver is the
 * page's map of CNAME answers.
 */
module Pages {

  import opened Wrappers
  import opened Strings
  import opened Regex
  import opened Urls
  import opened Scan
  import opened Resources
  import opened Cdn
  import opened Grouping
  import opened Detection

  /**
   * What a CNAME stage has collected after looking up `hosts`: the hosts in `order` are
   * exactly those that answered with at least one name, and `cnames` records each of them
   * with its answer and nothing else.
   */
  ghost predicate Collected(dns: Dns, hosts: seq<string>, cnames: map<string, seq<string>>, order: seq<string>) {
    && (forall h :: h in order ==> h in cnames && cnames[h] == Records(dns, h))
    && (forall h :: h in cnames ==> h in order)
    && (forall h :: h in order <==> h in hosts && |Records(dns, h)| > 0)
  }

  /** Looking up one more host keeps the collection exact. */
  lemma CollectedStep(dns: Dns, hosts: seq<string>, host: string, cnames: map<string, seq<string>>, order: seq<string>)
    requires Collected(dns, hosts, cnames, order)
    ensures |Records(dns, host)| == 0 ==> Collected(dns, hosts + [host], cnames, order)
    ensures |Records(dns, host)| > 0 && host in order ==>
              Collected(dns, hosts + [host], cnames[host := Records(dns, host)], order)
    ensures |Records(dns, host)| > 0 && host !in order ==>
              Collected(dns, hosts + [host], cnames[host := Records(dns, host)], order + [host])
  {
  }

  /** A host already in `order`, or one without a CDN, leaves the verdict over `order` that of `hosts + [host]`. */
  lemma VerdictKept(order: seq<string>, hosts: seq<string>, host: string, cdnOf: string -> Option<string>)
    requires FirstVerdict(order, cdnOf) == FirstVerdict(hosts, cdnOf)
    requires host in order || cdnOf(host).None?
    ensures FirstVerdict(order, cdnOf) == FirstVerdict(hosts + [host], cdnOf)
  {
    FirstVerdictSnoc(hosts, host, cdnOf);
    FirstVerdictSpec(order, cdnOf);
  }

  /** Appending the same host to both lists keeps their verdicts equal. */
  lemma VerdictGrows(order: seq<string>, hosts: seq<string>, host: string, cdnOf: string -> Option<string>)
    requires FirstVerdict(order, cdnOf) == FirstVerdict(hosts, cdnOf)
    ensures FirstVerdict(order + [host], cdnOf) == FirstVerdict(hosts + [host], cdnOf)
  {
    FirstVerdictSnoc(hosts, host, cdnOf);
    FirstVerdictSnoc(order, host, cdnOf);
  }

  /**
   * `grouped` after filing `rs`: a list under every key met, in `order`, the order the keys
   * were first met in, each list holding that key's resources in document order.
   */
  ghost predicate Filed(rs: seq<string>, key: string -> string, grouped: map<string, seq<string>>, order: seq<string>) {
    && order == Keys(rs, key)
    && (forall h :: h in grouped <==> h in order)
    && (forall h :: h in grouped ==> grouped[h] == Select(rs, key, h))
  }

  /** Filing one more resource: its key's list is created if it is new, then the resource pushed. */
  lemma FiledStep(rs: seq<string>, key: string -> string, r: string, grouped: map<string, seq<string>>, order: seq<string>)
    requires Filed(rs, key, grouped, order)
    ensures var h := key(r);
            var created := if h in grouped then grouped else grouped[h := []];
            Filed(rs + [r], key, created[h := created[h] + [r]], if h in grouped then order else order + [h])
  {
    var rs' := rs + [r];
    assert rs'[..|rs'| - 1] == rs && rs'[|rs'| - 1] == r;
    if key(r) !in grouped {
      SelectAbsent(rs, key, key(r));
    }
  }

  /** Listing the filed map in key order gives `GroupBy`. */
  lemma GroupByOf(rs: seq<string>, key: string -> string, grouped: map<string, seq<string>>, order: seq<string>, gs: seq<Group>)
    requires Filed(rs, key, grouped, order)
    requires |gs| == |order|
    requires forall k :: 0 <= k < |gs| ==> gs[k] == Group(order[k], grouped[order[k]])
    ensures gs == GroupBy(rs, key)
  {
  }

  /** The HTTP response a page was loaded with: its status code and headers. */
  datatype Response = Response(statusCode: int, headers: map<string, string>)

  lemma ValuesOfCons(m: Match, rest: seq<Match>)
    ensures ValuesOf([m] + rest) == [m.value] + ValuesOf(rest)
  {
    var ms := [m] + rest;
    var a, tail := ValuesOf(ms), ValuesOf(rest);
    var b := [m.value] + tail;
    assert |a| == |ms| == |b|;
    forall i | 0 <= i < |a| ensures a[i] == b[i] {
      assert a[i] == ms[i].value;
      if i > 0 {
        assert ms[i] == rest[i - 1];
        assert b[i] == tail[i - 1] == rest[i - 1].value;
      }
    }
    assert a == b;
  }

  lemma ResolveAllCons(page: UrlParts, v: string, vs: seq<string>)
    ensures ResolveAll(page, [v] + vs) == [Resolve(page, v)] + ResolveAll(page, vs)
  {
    var us := [v] + vs;
    var a, rest := ResolveAll(page, us), ResolveAll(page, vs);
    var b := [Resolve(page, v)] + rest;
    assert |a| == |us| == |b|;
    forall i | 0 <= i < |a| ensures a[i] == b[i] {
      assert a[i] == Resolve(page, us[i]);
      if i == 0 {
        assert us[0] == v;
      } else {
        assert us[i] == vs[i - 1];
        assert b[i] == rest[i - 1] == Resolve(page, vs[i - 1]);
      }
    }
    assert a == b;
  }

  /** One more scanned value: the resolved list from `lastIndex` on is its resource and the rest. */
  lemma ResourcesStep(page: UrlParts, body: string, last: nat)
    requires Exec(body, last).Some?
    ensures var m := Exec(body, last).value;
            ResolveAll(page, ValuesOf(MatchesFrom(body, last))) ==
            [Resolve(page, m.value)] + ResolveAll(page, ValuesOf(MatchesFrom(body, m.end)))
  {
    var m := Exec(body, last).value;
    var rest := MatchesFrom(body, m.end);
    assert MatchesFrom(body, last) == [m] + rest;
    ValuesOfCons(m, rest);
    ResolveAllCons(page, m.value, ValuesOf(rest));
  }

  /** The scanning loop's invariant survives one more value pushed. */
  lemma ScanStep(page: UrlParts, body: string, last: nat, acc: seq<string>)
    requires Exec(body, last).Some?
    requires acc + ResolveAll(page, ValuesOf(MatchesFrom(body, last))) == ResourcesOf(page, body)
    ensures var m := Exec(body, last).value;
            (acc + [Resolve(page, m.value)]) + ResolveAll(page, ValuesOf(MatchesFrom(body, m.end))) == ResourcesOf(page, body)
  {
    var m := Exec(body, last).value;
    ResourcesStep(page, body, last);
    var rest := ResolveAll(page, ValuesOf(MatchesFrom(body, m.end)));
    assert acc + [Resolve(page, m.value)] + rest == acc + ([Resolve(page, m.value)] + rest);
  }

  /** The branches of `getResources` that make one scanned value absolute. */
  method Absolute(page: UrlParts, value: string) returns (resource: string)
    ensures resource == Resolve(page, value)
  {
    resource := value;
    if StartsWith(resource, "//") {
      resource := ProtocolText(page.protocol) + resource;
    } else if SchemeOf(resource).None? {
      resource := BuildUrl(page, PathResolve(page.pathname, resource));
    }
  }

  /**
   * The scanning loop of `getResources`: `src_href.exec` from `lastIndex` on, each value
   * made absolute as it is pushed.
   */
  method ScanResources(page: UrlParts, body: string) returns (acc: seq<string>)
    ensures acc == ResourcesOf(page, body)
  {
    acc := [];
    var last: nat := 0;
    var m := Exec(body, 0);
    while m.Some?
      invariant m == Exec(body, last)
      invariant acc + ResolveAll(page, ValuesOf(MatchesFrom(body, last))) == ResourcesOf(page, body)
      decreases |body| - last
    {
      ScanStep(page, body, last, acc);
      var resource := Absolute(page, m.value.value);
      acc := acc + [resource];
      last := m.value.end;
      m := Exec(body, last);
    }
    assert MatchesFrom(body, last) == [];
  }

  /**
   * The filing loops of `getResourcesByHost`, for any key: each resource pushed onto
   * `grouped[key]`, created on first use, then one group per key in the order the keys
   * were added.
   */
  method FileByKey(rs: seq<string>, key: string -> string) returns (groupedArray: seq<Group>)
    ensures groupedArray == GroupBy(rs, key)
  {
    var grouped: map<string, seq<string>> := map[];
    var order: seq<string> := [];
    var i := 0;
    while i < |rs|
      invariant 0 <= i <= |rs|
      invariant Filed(rs[..i], key, grouped, order)
    {
      var hostname := key(rs[i]);
      FiledStep(rs[..i], key, rs[i], grouped, order);
      assert rs[..i + 1] == rs[..i] + [rs[i]];
      if hostname !in grouped {
        grouped := grouped[hostname := []];
        order := order + [hostname];
      }
      grouped := grouped[hostname := grouped[hostname] + [rs[i]]];
      i := i + 1;
    }
    groupedArray := ListGroups(grouped, order);
    GroupByOf(rs[..i], key, grouped, order, groupedArray);
    assert rs[..i] == rs;
  }

  /** The `for (hostname in grouped)` of `getResourcesByHost`: one group per key, in key order. */
  method ListGroups(grouped: map<string, seq<string>>, order: seq<string>) returns (groupedArray: seq<Group>)
    requires forall h :: h in order ==> h in grouped
    ensures |groupedArray| == |order|
    ensures forall k :: 0 <= k < |order| ==> groupedArray[k] == Group(order[k], grouped[order[k]])
  {
    groupedArray := [];
    var j := 0;
    while j < |order|
      invariant 0 <= j <= |order| && |groupedArray| == j
      invariant forall k :: 0 <= k < j ==> groupedArray[k] == Group(order[k], grouped[order[k]])
    {
      groupedArray := groupedArray + [Group(order[j], grouped[order[j]])];
      j := j + 1;
    }
  }


  /** The `forEach` of `getStaticAssetsByHost`: every group's resources replaced by their static assets. */
  method KeepStaticEach(byHost: seq<Group>) returns (grouped: seq<Group>)
    ensures |grouped| == |byHost|
    ensures forall k :: 0 <= k < |byHost| ==> grouped[k] == Group(byHost[k].hostname, KeepStatic(byHost[k].resources))
  {
    grouped := byHost;
    var j := 0;
    while j < |grouped|
      invariant 0 <= j <= |grouped| && |grouped| == |byHost|
      invariant forall k :: 0 <= k < j ==> grouped[k] == Group(byHost[k].hostname, KeepStatic(byHost[k].resources))
      invariant forall k :: j <= k < |grouped| ==> grouped[k] == byHost[k]
    {
      grouped := grouped[j := grouped[j].(resources := KeepStatic(grouped[j].resources))];
      j := j + 1;
    }
  }

  /** The `filter` of `getStaticAssetsByHost` on the filtered groups: those with more than one asset left. */
  method DropSmall(byHost: seq<Group>, grouped: seq<Group>) returns (kept: seq<Group>)
    requires |grouped| == |byHost|
    requires forall k :: 0 <= k < |byHost| ==> grouped[k] == Group(byHost[k].hostname, KeepStatic(byHost[k].resources))
    ensures kept == StaticGroups(byHost)
  {
    kept := [];
    var j := 0;
    assert byHost[0..] == byHost;
    while j < |grouped|
      invariant 0 <= j <= |grouped|
      invariant kept + StaticGroups(byHost[j..]) == StaticGroups(byHost)
    {
      var g := grouped[j];
      StaticGroupsStep(byHost, j, g, kept);
      if |g.resources| > 1 {
        kept := kept + [g];
      }
      j := j + 1;
    }
    assert byHost[j..] == [];
  }

  /** The `filter` and `map` at the start of `getCDN`: the hostnames of groups with at least three assets. */
  method CandidateHosts(assets: seq<Group>) returns (hosts: seq<string>)
    ensures hosts == Candidates(assets)
  {
    hosts := [];
    var j := 0;
    while j < |assets|
      invariant 0 <= j <= |assets|
      invariant hosts + Candidates(assets[j..]) == Candidates(assets)
    {
      assert assets[j..][1..] == assets[j + 1..];
      if |assets[j].resources| >= 3 {
        hosts := hosts + [assets[j].hostname];
      }
      j := j + 1;
    }
  }

  class Page {
    /** The CDN signature table the page consults: lib/cdn.js. */
    const table: seq<Signature>
    const dns: Dns
    const url: string
    const urlParts: UrlParts
    /** Absent when the transport reported neither an error nor a response. */
    const response: Option<Response>
    const body: string
    /** `this.resources`: unset until `getResources` first runs. */
    var resources: Option<seq<string>>

    /** A kept resource list is the one the body yields. */
    ghost predicate Valid()
      reads this
    {
      resources.Some? ==> resources.value == ResourcesOf(urlParts, body)
    }

    constructor(dns: Dns, url: string, response: Option<Response>, body: string)
      ensures table == Signatures
      ensures this.dns == dns && this.url == url && urlParts == ParseUrl(url)
      ensures this.response == response && this.body == body
      ensures resources == None && Valid()
    {
      table := Signatures;
      this.dns := dns;
      this.url := url;
      this.urlParts := ParseUrl(url);
      this.response := response;
      this.body := body;
      resources := None;
    }

    /** `url_parts.hostname`, or the empty name when the page URL has none. */
    function PageHost(): string {
      Hostname(urlParts).GetOr("")
    }

    /**
     * `getResources`: on the first call the body is scanned and every value resolved;
     * the list is kept, and every later call returns that same list.
     */
    method GetResources() returns (rs: seq<string>)
      requires Valid()
      modifies this
      ensures Valid() && resources == Some(rs)
      ensures rs == ResourcesOf(urlParts, body)
      ensures old(resources).Some? ==> rs == old(resources).value
    {
      if resources.None? {
        var acc := ScanResources(urlParts, body);
        resources := Some(acc);
      }
      rs := resources.value;
    }

    /** `getResourcesByHost`: the resources filed by hostname, then the groups sorted by decreasing size. */
    method GetResourcesByHost() returns (gs: seq<Group>)
      requires Valid()
      modifies this
      ensures Valid() && resources.Some?
      ensures gs == ResourcesByHost(ResourcesOf(urlParts, body))
    {
      var rs := GetResources();
      var groupedArray := FileByKey(rs, HostKey);
      gs := SortBySize(groupedArray);
    }

    /**
     * `getStaticAssetsByHost`: each group's resources filtered in place to the static
     * assets, the groups of fewer than two dropped, and the rest sorted by decreasing size.
     */
    method GetStaticAssetsByHost() returns (gs: seq<Group>)
      requires Valid()
      modifies this
      ensures Valid() && resources.Some?
      ensures gs == StaticAssetsByHost(ResourcesOf(urlParts, body))
    {
      var grouped := GetResourcesByHost();
      var filtered := KeepStaticEach(grouped);
      var kept := DropSmall(grouped, filtered);
      gs := SortBySize(kept);
    }

    /** `getCDNByHostname`: the first CDN of the table, in order, with a pattern the hostname matches. */
    method GetCDNByHostname(hostname: string) returns (r: Option<string>)
      ensures r == Lookup(table, hostname)
    {
      LookupFirstMatch(table, hostname);
      var i := 0;
      while i < |table|
        invariant 0 <= i <= |table|
        invariant forall j :: 0 <= j < i ==> !AnyMatch(table[j].1, hostname)
      {
        var patterns := table[i].1;
        AnyMatchSpec(patterns, hostname);
        var k := 0;
        while k < |patterns|
          invariant 0 <= k <= |patterns|
          invariant forall q :: 0 <= q < k ==> !Test(patterns[q], hostname)
        {
          if Test(patterns[k], hostname) {
            assert FirstMatch(table, hostname, i);
            return Some(table[i].0);
          }
          k := k + 1;
        }
        i := i + 1;
      }
      return None;
    }

    /** The inner loop of a CNAME stage: the CDN of the first of one host's names the table knows. */
    method FirstCname(names: seq<string>) returns (r: Option<string>)
      ensures r == FirstCdn(table, names)
    {
      var k := 0;
      while k < |names|
        invariant 0 <= k <= |names|
        invariant forall q :: 0 <= q < k ==> Lookup(table, names[q]).None?
      {
        var cdn := GetCDNByHostname(names[k]);
        if cdn.Some? {
          FirstCdnAt(table, names, k);
          return cdn;
        }
        k := k + 1;
      }
      FirstCdnSpec(table, names);
      return None;
    }

    /**
     * The `async.each` of a CNAME stage: each host's lookup, and `cnames[host]` set when it
     * answers with at least one name. `order` is the order the keys were added in. The
     * stage's verdict over the answered hosts is its verdict over all the hosts.
     */
    method CollectCnames(hosts: seq<string>) returns (cnames: map<string, seq<string>>, order: seq<string>)
      ensures forall h :: h in order ==> h in cnames && cnames[h] == Records(dns, h)
      ensures forall h :: h in cnames ==> h in order
      ensures forall h :: h in order <==> h in hosts && |Records(dns, h)| > 0
      ensures FirstVerdict(order, ByCname(table, dns)) == FirstVerdict(hosts, ByCname(table, dns))
    {
      cnames := map[];
      order := [];
      var i := 0;
      while i < |hosts|
        invariant 0 <= i <= |hosts|
        invariant Collected(dns, hosts[..i], cnames, order)
        invariant FirstVerdict(order, ByCname(table, dns)) == FirstVerdict(hosts[..i], ByCname(table, dns))
      {
        var host := hosts[i];
        assert hosts[..i + 1] == hosts[..i] + [host];
        CollectedStep(dns, hosts[..i], host, cnames, order);
        var answer := Records(dns, host);
        if |answer| > 0 {
          if host in order {
            VerdictKept(order, hosts[..i], host, ByCname(table, dns));
          } else {
            VerdictGrows(order, hosts[..i], host, ByCname(table, dns));
            order := order + [host];
          }
          cnames := cnames[host := answer];
        } else {
          assert ByCname(table, dns)(host).None? by { assert answer == []; }
          VerdictKept(order, hosts[..i], host, ByCname(table, dns));
        }
        i := i + 1;
      }
      assert hosts[..i] == hosts;
    }

    /** The search of a CNAME stage over `cnames`, in key order: the first host with a CDN name. */
    method SearchCnames(cnames: map<string, seq<string>>, order: seq<string>) returns (v: Option<Verdict>)
      requires forall h :: h in order ==> h in cnames && cnames[h] == Records(dns, h)
      ensures v == FirstVerdict(order, ByCname(table, dns))
    {
      var i := 0;
      while i < |order|
        invariant 0 <= i <= |order|
        invariant forall q :: 0 <= q < i ==> ByCname(table, dns)(order[q]).None?
      {
        var cdn := FirstCname(cnames[order[i]]);
        assert cdn == ByCname(table, dns)(order[i]);
        if cdn.Some? {
          assert Hit(order, ByCname(table, dns), i);
          FirstVerdictSpec(order, ByCname(table, dns));
          return Some(Verdict(cdn.value, order[i]));
        }
        i := i + 1;
      }
      FirstVerdictNone(order, ByCname(table, dns));
      return None;
    }

    /**
     * `getCDN`: the candidate hosts, a CNAME stage over the subdomains, a direct lookup of
     * the other hosts, and a CNAME stage over them; the result is `Detect` of the page.
     */
    method GetCDN() returns (d: Detection)
      requires Valid()
      modifies this
      ensures Valid() && resources.Some?
      ensures d == Detect(table, PageHost(), StaticAssetsByHost(ResourcesOf(urlParts, body)), dns)
    {
      var assets := GetStaticAssetsByHost();
      var pageHost := PageHost();
      var hosts := CandidateHosts(assets);
      var subdomains := FilterHosts(hosts, pageHost, true);
      var cnames, order := CollectCnames(subdomains);
      var viaSubdomain := SearchCnames(cnames, order);
      if viaSubdomain.Some? {
        return Detection(viaSubdomain, subdomains);
      }
      var externalHosts := FilterHosts(hosts, pageHost, false);
      var direct := DirectLookup(externalHosts);
      if direct.Some? {
        return Detection(direct, subdomains);
      }
      cnames, order := CollectCnames(externalHosts);
      var viaExternal := SearchCnames(cnames, order);
      return Detection(viaExternal, subdomains + externalHosts);
    }

    /** The direct stage of `getCDN`: the first host, in order, whose own name is in the table. */
    method DirectLookup(hosts: seq<string>) returns (v: Option<Verdict>)
      ensures v == FirstVerdict(hosts, ByName(table))
    {
      var i := 0;
      while i < |hosts|
        invariant 0 <= i <= |hosts|
        invariant forall q :: 0 <= q < i ==> ByName(table)(hosts[q]).None?
      {
        var cdn := GetCDNByHostname(hosts[i]);
        assert cdn == ByName(table)(hosts[i]);
        if cdn.Some? {
          assert Hit(hosts, ByName(table), i);
          FirstVerdictSpec(hosts, ByName(table));
          return Some(Verdict(cdn.value, hosts[i]));
        }
        i := i + 1;
      }
      FirstVerdictNone(hosts, ByName(table));
      return None;
    }

    /** The `filter` on `isSubdomain` (or its negation) of the candidate hosts. */
    method FilterHosts(hosts: seq<string>, pageHost: string, subdomain: bool) returns (out: seq<string>)
      ensures out == Side(hosts, SubdomainOf(pageHost), subdomain)
    {
      out := [];
      var j := 0;
      while j < |hosts|
        invariant 0 <= j <= |hosts|
        invariant out + Side(hosts[j..], SubdomainOf(pageHost), subdomain) == Side(hosts, SubdomainOf(pageHost), subdomain)
      {
        SideStep(hosts, SubdomainOf(pageHost), subdomain, j, out);
        if IsSubdomain(pageHost, hosts[j]) == subdomain {
          out := out + [hosts[j]];
        }
        j := j + 1;
      }
    }
  }
}
