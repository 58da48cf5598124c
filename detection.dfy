/**
 * The decision procedure of `Page.prototype.getCDN`, with the DNS resolver given as the
 * CNAME answers it would return. Static-asset hosts with at least three assets are the
 * candidates; the page's own subdomains are recognised by their CNAME records, then the
 * remaining hosts by their own names, and last by their CNAME records.
 */
module Detection {

  import opened Wrappers
  import opened Strings
  import opened Regex
  import opened Cdn
  import opened Grouping

  /** `callback(null, cdn, host)`: the CDN and the candidate host that revealed it. */
  datatype Verdict = Verdict(cdn: string, host: string)

  /** The verdict (none for the empty callback) and the hosts whose CNAME records were asked for. */
  datatype Detection = Detection(verdict: Option<Verdict>, queried: seq<string>)

  /**
   * CNAME answers by hostname. A host with no entry is one whose lookup fails; an entry
   * with no names is a lookup that succeeds empty. `getCDN` ignores both alike.
   */
  type Dns = map<string, seq<string>>

  /** The names a lookup contributes: its answer, or nothing when it fails. */
  function Records(dns: Dns, h: string): seq<string> {
    if h in dns then dns[h] else []
  }

  // ---------------------------------------------------------------------------
  // `isSubdomain`: a leading `www.` is dropped, the rest becomes a `$`-anchored
  // case-insensitive pattern with its dots escaped.
  // ---------------------------------------------------------------------------

  function StripWww(h: string): (r: string)
    ensures StartsWith(h, "www.") ==> h == "www." + r
    ensures !StartsWith(h, "www.") ==> r == h
  {
    if StartsWith(h, "www.") then h[4..] else h
  }

  predicate IsSubdomain(pageHost: string, h: string) {
    Test(Suffix(StripWww(pageHost), true), h)
  }

  /** A host is a subdomain exactly when, in any case, it ends with the page host less its `www.`. */
  lemma IsSubdomainSpec(pageHost: string, h: string)
    ensures IsSubdomain(pageHost, h) <==> EndsWith(Lower(h), Lower(StripWww(pageHost)))
  {
    SuffixTest(StripWww(pageHost), true, h);
  }

  // ---------------------------------------------------------------------------
  // Candidate hosts and the two sides of the subdomain test
  // ---------------------------------------------------------------------------

  /** The hostnames of the groups holding at least three static assets, in group order. */
  function Candidates(assets: seq<Group>): (hs: seq<string>)
    ensures |hs| <= |assets|
  {
    if assets == [] then []
    else (if |assets[0].resources| >= 3 then [assets[0].hostname] else []) + Candidates(assets[1..])
  }

  lemma {:induction false} CandidatesSpec(assets: seq<Group>)
    ensures forall h :: h in Candidates(assets) <==>
              exists i :: 0 <= i < |assets| && assets[i].hostname == h && |assets[i].resources| >= 3
  {
    if assets != [] {
      CandidatesSpec(assets[1..]);
      forall h ensures h in Candidates(assets) <==>
                exists i :: 0 <= i < |assets| && assets[i].hostname == h && |assets[i].resources| >= 3 {
        if h in Candidates(assets[1..]) {
          var i :| 0 <= i < |assets[1..]| && assets[1..][i].hostname == h && |assets[1..][i].resources| >= 3;
          assert assets[i + 1] == assets[1..][i];
        }
        if exists i :: 0 <= i < |assets| && assets[i].hostname == h && |assets[i].resources| >= 3 {
          var i :| 0 <= i < |assets| && assets[i].hostname == h && |assets[i].resources| >= 3;
          if i > 0 { assert assets[1..][i - 1] == assets[i]; }
        }
      }
    }
  }

  /** The subdomain test of a page, as a value the host filters take. */
  function SubdomainOf(pageHost: string): string -> bool {
    h => IsSubdomain(pageHost, h)
  }

  /** The hosts, in order, on one side of a test: those `isSub` answers `side` for. */
  function Side(hosts: seq<string>, isSub: string -> bool, side: bool): seq<string> {
    if hosts == [] then []
    else (if isSub(hosts[0]) == side then [hosts[0]] else []) + Side(hosts[1..], isSub, side)
  }

  /** One more host decided: it joins the side already built when it is on that side. */
  lemma SideStep(hosts: seq<string>, isSub: string -> bool, side: bool, j: nat, out: seq<string>)
    requires j < |hosts|
    requires out + Side(hosts[j..], isSub, side) == Side(hosts, isSub, side)
    ensures (if isSub(hosts[j]) == side then out + [hosts[j]] else out) + Side(hosts[j + 1..], isSub, side)
      == Side(hosts, isSub, side)
  {
    assert hosts[j..][1..] == hosts[j + 1..];
    var x := if isSub(hosts[j]) == side then [hosts[j]] else [];
    assert Side(hosts[j..], isSub, side) == x + Side(hosts[j + 1..], isSub, side);
    assert out + (x + Side(hosts[j + 1..], isSub, side)) == (out + x) + Side(hosts[j + 1..], isSub, side);
  }

  /** Each side holds exactly the hosts of that side. */
  lemma {:induction false} SideMembers(hosts: seq<string>, isSub: string -> bool, side: bool)
    ensures forall h :: h in Side(hosts, isSub, side) <==> h in hosts && isSub(h) == side
  {
    if hosts != [] {
      var tail := Side(hosts[1..], isSub, side);
      SideMembers(hosts[1..], isSub, side);
      assert hosts == [hosts[0]] + hosts[1..];
      assert Side(hosts, isSub, side) == (if isSub(hosts[0]) == side then [hosts[0]] else []) + tail;
    }
  }

  /** Together the two sides hold every host as often as the list does: a partition. */
  lemma {:induction false} SidePartition(hosts: seq<string>, isSub: string -> bool)
    ensures multiset(Side(hosts, isSub, true)) + multiset(Side(hosts, isSub, false)) == multiset(hosts)
  {
    if hosts != [] {
      SidePartition(hosts[1..], isSub);
      assert hosts == [hosts[0]] + hosts[1..];
      var t, f := Side(hosts[1..], isSub, true), Side(hosts[1..], isSub, false);
      if isSub(hosts[0]) {
        assert Side(hosts, isSub, true) == [hosts[0]] + t && Side(hosts, isSub, false) == f;
      } else {
        assert Side(hosts, isSub, true) == t && Side(hosts, isSub, false) == [hosts[0]] + f;
      }
    }
  }

  lemma SideSpec(hosts: seq<string>, isSub: string -> bool)
    ensures forall side: bool, h :: h in Side(hosts, isSub, side) <==> h in hosts && isSub(h) == side
  {
    SideMembers(hosts, isSub, true);
    SideMembers(hosts, isSub, false);
    forall side: bool ensures forall h :: h in Side(hosts, isSub, side) <==> h in hosts && isSub(h) == side {
      SideMembers(hosts, isSub, side);
    }
  }

  // ---------------------------------------------------------------------------
  // The three lookups
  // ---------------------------------------------------------------------------

  /** The inner loop over one host's names: the CDN of the first name the table knows. */
  function FirstCdn(table: seq<Signature>, names: seq<string>): Option<string> {
    if names == [] then None
    else if Lookup(table, names[0]).Some? then Lookup(table, names[0])
    else FirstCdn(table, names[1..])
  }

  lemma {:induction false} FirstCdnSpec(table: seq<Signature>, names: seq<string>)
    ensures FirstCdn(table, names).None? <==> forall j :: 0 <= j < |names| ==> Lookup(table, names[j]).None?
    ensures FirstCdn(table, names).Some? ==>
              exists j :: 0 <= j < |names| && Lookup(table, names[j]) == FirstCdn(table, names) &&
                          forall k :: 0 <= k < j ==> Lookup(table, names[k]).None?
  {
    if names != [] {
      FirstCdnSpec(table, names[1..]);
      if Lookup(table, names[0]).None? {
        if FirstCdn(table, names).Some? {
          var j :| 0 <= j < |names[1..]| && Lookup(table, names[1..][j]) == FirstCdn(table, names) &&
                   forall k :: 0 <= k < j ==> Lookup(table, names[1..][k]).None?;
          forall k | 0 <= k < j + 1 ensures Lookup(table, names[k]).None? {
            if k > 0 { assert names[k] == names[1..][k - 1]; }
          }
        } else {
          forall j | 0 <= j < |names| ensures Lookup(table, names[j]).None? {
            if j > 0 { assert names[j] == names[1..][j - 1]; }
          }
        }
      }
    }
  }

  /** Once a name is known to the table, the names after it do not matter. */
  lemma FirstCdnAt(table: seq<Signature>, names: seq<string>, j: nat)
    requires j < |names| && Lookup(table, names[j]).Some?
    requires forall k :: 0 <= k < j ==> Lookup(table, names[k]).None?
    ensures FirstCdn(table, names) == Lookup(table, names[j])
  {
    FirstCdnSpec(table, names);
    var i :| 0 <= i < |names| && Lookup(table, names[i]) == FirstCdn(table, names) &&
             forall k :: 0 <= k < i ==> Lookup(table, names[k]).None?;
    assert i == j;
  }

  /** Only one name to try: the host's own. */
  lemma FirstCdnSingle(table: seq<Signature>, h: string)
    ensures FirstCdn(table, [h]) == Lookup(table, h)
  {
    assert [h][1..] == [];
  }

  /**
   * The host loop shared by all three stages: the first host, in order, for which `cdnOf`
   * names a CDN (its own name looked up, or its CNAME records), with that CDN.
   */
  function FirstVerdict(hosts: seq<string>, cdnOf: string -> Option<string>): Option<Verdict> {
    if hosts == [] then None
    else if cdnOf(hosts[0]).Some? then Some(Verdict(cdnOf(hosts[0]).value, hosts[0]))
    else FirstVerdict(hosts[1..], cdnOf)
  }

  /** No host named: no verdict. */
  lemma {:induction false} FirstVerdictNone(hosts: seq<string>, cdnOf: string -> Option<string>)
    requires forall q :: 0 <= q < |hosts| ==> cdnOf(hosts[q]).None?
    ensures FirstVerdict(hosts, cdnOf) == None
  {
    if hosts != [] {
      assert forall q :: 0 <= q < |hosts[1..]| ==> hosts[1..][q] == hosts[q + 1];
      FirstVerdictNone(hosts[1..], cdnOf);
    }
  }

  /** Host i is the first for which `cdnOf` names a CDN. */
  ghost predicate Hit(hosts: seq<string>, cdnOf: string -> Option<string>, i: int) {
    0 <= i < |hosts| && cdnOf(hosts[i]).Some? && forall k :: 0 <= k < i ==> cdnOf(hosts[k]).None?
  }

  lemma {:induction false} FirstVerdictSpec(hosts: seq<string>, cdnOf: string -> Option<string>)
    ensures FirstVerdict(hosts, cdnOf).None? <==> forall h :: h in hosts ==> cdnOf(h).None?
    ensures forall i :: Hit(hosts, cdnOf, i) ==> FirstVerdict(hosts, cdnOf) == Some(Verdict(cdnOf(hosts[i]).value, hosts[i]))
    ensures FirstVerdict(hosts, cdnOf).Some? ==>
              var v := FirstVerdict(hosts, cdnOf).value;
              v.host in hosts && cdnOf(v.host) == Some(v.cdn)
  {
    if hosts != [] {
      FirstVerdictSpec(hosts[1..], cdnOf);
      forall i | Hit(hosts, cdnOf, i) ensures FirstVerdict(hosts, cdnOf) == Some(Verdict(cdnOf(hosts[i]).value, hosts[i])) {
        if i > 0 {
          assert Hit(hosts[1..], cdnOf, i - 1);
        }
      }
      assert hosts == [hosts[0]] + hosts[1..];
    }
  }

  /** The host loop one host further: a later host matters only when no earlier one revealed a CDN. */
  lemma {:induction false} FirstVerdictSnoc(hosts: seq<string>, h: string, cdnOf: string -> Option<string>)
    ensures FirstVerdict(hosts + [h], cdnOf) ==
              if FirstVerdict(hosts, cdnOf).Some? then FirstVerdict(hosts, cdnOf)
              else if cdnOf(h).Some? then Some(Verdict(cdnOf(h).value, h))
              else None
  {
    if hosts == [] {
      assert [h][1..] == [];
    } else {
      assert (hosts + [h])[1..] == hosts[1..] + [h];
      FirstVerdictSnoc(hosts[1..], h, cdnOf);
    }
  }

  /** Two ways of revealing that agree on every host give the same verdict. */
  lemma {:induction false} FirstVerdictAgree(hosts: seq<string>, f: string -> Option<string>, g: string -> Option<string>)
    requires forall h :: h in hosts ==> f(h) == g(h)
    ensures FirstVerdict(hosts, f) == FirstVerdict(hosts, g)
  {
    if hosts != [] {
      assert f(hosts[0]) == g(hosts[0]);
      FirstVerdictAgree(hosts[1..], f, g);
    }
  }

  /** The CDN a host's CNAME records reveal. */
  function CnameCdn(table: seq<Signature>, dns: Dns, h: string): Option<string> {
    FirstCdn(table, Records(dns, h))
  }

  /** Stage two looks each host's own name up in the table. */
  function ByName(table: seq<Signature>): string -> Option<string> {
    h => Lookup(table, h)
  }

  /** Stages one and three look up each host's CNAME records. */
  function ByCname(table: seq<Signature>, dns: Dns): string -> Option<string> {
    h => CnameCdn(table, dns, h)
  }

  // ---------------------------------------------------------------------------
  // `getCDN`
  // ---------------------------------------------------------------------------

  /**
   * The three stages in order over candidate hosts, split by `isSub`. Every subdomain is
   * queried; the other hosts are queried only when neither the subdomains' CNAMEs nor the
   * other hosts' own names name a CDN.
   */
  function Stages(hosts: seq<string>, isSub: string -> bool, byName: string -> Option<string>,
                  byCname: string -> Option<string>): Detection {
    var subs := Side(hosts, isSub, true);
    var ext := Side(hosts, isSub, false);
    if FirstVerdict(subs, byCname).Some? then Detection(FirstVerdict(subs, byCname), subs)
    else if FirstVerdict(ext, byName).Some? then Detection(FirstVerdict(ext, byName), subs)
    else Detection(FirstVerdict(ext, byCname), subs + ext)
  }

  /** `getCDN` with a CDN table, on a page host, its static assets grouped by host, and the DNS answers. */
  function Detect(table: seq<Signature>, pageHost: string, assets: seq<Group>, dns: Dns): Detection {
    Stages(Candidates(assets), SubdomainOf(pageHost), ByName(table), ByCname(table, dns))
  }

  /** A host `Stages` can recognise: by its CNAME records, or for a non-subdomain by name. */
  predicate Visible(isSub: string -> bool, byName: string -> Option<string>, byCname: string -> Option<string>, h: string) {
    byCname(h).Some? || (!isSub(h) && byName(h).Some?)
  }

  /** What justifies a verdict: the host's CNAME records, or for a non-subdomain its own name. */
  predicate Backed(isSub: string -> bool, byName: string -> Option<string>, byCname: string -> Option<string>, v: Verdict) {
    byCname(v.host) == Some(v.cdn) || (!isSub(v.host) && byName(v.host) == Some(v.cdn))
  }

  lemma StagesSpec(hosts: seq<string>, isSub: string -> bool, byName: string -> Option<string>, byCname: string -> Option<string>)
    ensures var d := Stages(hosts, isSub, byName, byCname);
            d.verdict.Some? ==>
              d.verdict.value.host in hosts && Backed(isSub, byName, byCname, d.verdict.value) &&
              (isSub(d.verdict.value.host) ==> byCname(d.verdict.value.host) == Some(d.verdict.value.cdn))
    ensures Stages(hosts, isSub, byName, byCname).verdict.None? <==>
              forall h :: h in hosts ==> !Visible(isSub, byName, byCname, h)
  {
    StagesSound(hosts, isSub, byName, byCname);
    StagesNone(hosts, isSub, byName, byCname);
  }

  /** The verdict, if any, names one of the hosts and is backed by the stage that found it. */
  lemma StagesSound(hosts: seq<string>, isSub: string -> bool, byName: string -> Option<string>, byCname: string -> Option<string>)
    ensures var d := Stages(hosts, isSub, byName, byCname);
            d.verdict.Some? ==>
              d.verdict.value.host in hosts && Backed(isSub, byName, byCname, d.verdict.value) &&
              (isSub(d.verdict.value.host) ==> byCname(d.verdict.value.host) == Some(d.verdict.value.cdn))
  {
    var subs := Side(hosts, isSub, true);
    var ext := Side(hosts, isSub, false);
    if FirstVerdict(subs, byCname).Some? {
      SideMembers(hosts, isSub, true);
      FirstVerdictSpec(subs, byCname);
    } else if FirstVerdict(ext, byName).Some? {
      SideMembers(hosts, isSub, false);
      FirstVerdictSpec(ext, byName);
    } else {
      SideMembers(hosts, isSub, false);
      FirstVerdictSpec(ext, byCname);
    }
  }

  /** There is no verdict exactly when no host is visible to any stage. */
  lemma StagesNone(hosts: seq<string>, isSub: string -> bool, byName: string -> Option<string>, byCname: string -> Option<string>)
    ensures Stages(hosts, isSub, byName, byCname).verdict.None? <==>
              forall h :: h in hosts ==> !Visible(isSub, byName, byCname, h)
  {
    var subs := Side(hosts, isSub, true);
    var ext := Side(hosts, isSub, false);
    SideMembers(hosts, isSub, true);
    SideMembers(hosts, isSub, false);
    FirstVerdictSpec(subs, byCname);
    FirstVerdictSpec(ext, byName);
    FirstVerdictSpec(ext, byCname);
    if Stages(hosts, isSub, byName, byCname).verdict.None? {
      forall h | h in hosts ensures !Visible(isSub, byName, byCname, h) {
        if isSub(h) { assert h in subs; } else { assert h in ext; }
      }
    }
  }

  lemma StagesSubdomainFirst(hosts: seq<string>, isSub: string -> bool, byName: string -> Option<string>,
                             byCname: string -> Option<string>, h: string)
    requires h in hosts && isSub(h) && byCname(h).Some?
    ensures var d := Stages(hosts, isSub, byName, byCname);
            d.verdict.Some? && isSub(d.verdict.value.host) && byCname(d.verdict.value.host) == Some(d.verdict.value.cdn)
  {
    var subs := Side(hosts, isSub, true);
    SideSpec(hosts, isSub);
    assert h in subs;
    FirstVerdictSpec(subs, byCname);
  }

  lemma StagesDirectBeforeCname(hosts: seq<string>, isSub: string -> bool, byName: string -> Option<string>,
                                byCname: string -> Option<string>, h: string)
    requires forall s :: s in hosts && isSub(s) ==> byCname(s).None?
    requires h in hosts && !isSub(h) && byName(h).Some?
    ensures var d := Stages(hosts, isSub, byName, byCname);
            d.verdict.Some? && !isSub(d.verdict.value.host) && byName(d.verdict.value.host) == Some(d.verdict.value.cdn) &&
            d.queried == Side(hosts, isSub, true)
  {
    var subs := Side(hosts, isSub, true);
    var ext := Side(hosts, isSub, false);
    SideSpec(hosts, isSub);
    assert h in ext;
    FirstVerdictSpec(subs, byCname);
    FirstVerdictSpec(ext, byName);
  }

  lemma StagesQueries(hosts: seq<string>, isSub: string -> bool, byName: string -> Option<string>, byCname: string -> Option<string>)
    ensures var d := Stages(hosts, isSub, byName, byCname);
            var early := FirstVerdict(Side(hosts, isSub, true), byCname).Some? || FirstVerdict(Side(hosts, isSub, false), byName).Some?;
            forall h :: h in d.queried <==> h in hosts && (isSub(h) || !early)
  {
    var subs := Side(hosts, isSub, true);
    var ext := Side(hosts, isSub, false);
    SideMembers(hosts, isSub, true);
    SideMembers(hosts, isSub, false);
    if FirstVerdict(subs, byCname).Some? || FirstVerdict(ext, byName).Some? {
      assert Stages(hosts, isSub, byName, byCname).queried == subs;
    } else {
      assert Stages(hosts, isSub, byName, byCname).queried == subs + ext;
    }
  }

  /** A verdict's justification, read back in the page's terms. */
  predicate Justified(table: seq<Signature>, pageHost: string, dns: Dns, v: Verdict) {
    CnameCdn(table, dns, v.host) == Some(v.cdn) ||
    (!IsSubdomain(pageHost, v.host) && Lookup(table, v.host) == Some(v.cdn))
  }

  /** A host the detection can recognise, in the page's terms. */
  predicate Recognisable(table: seq<Signature>, pageHost: string, dns: Dns, h: string) {
    CnameCdn(table, dns, h).Some? || (!IsSubdomain(pageHost, h) && Lookup(table, h).Some?)
  }

  /**
   * A verdict names a candidate host and is justified; a subdomain is only ever judged by its
   * CNAME records; and there is no verdict exactly when no candidate is recognisable.
   */
  lemma DetectSpec(table: seq<Signature>, pageHost: string, assets: seq<Group>, dns: Dns)
    ensures var d := Detect(table, pageHost, assets, dns);
            d.verdict.Some? ==>
              d.verdict.value.host in Candidates(assets) && Justified(table, pageHost, dns, d.verdict.value) &&
              (IsSubdomain(pageHost, d.verdict.value.host) ==> CnameCdn(table, dns, d.verdict.value.host) == Some(d.verdict.value.cdn))
    ensures Detect(table, pageHost, assets, dns).verdict.None? <==>
              forall h :: h in Candidates(assets) ==> !Recognisable(table, pageHost, dns, h)
  {
    var isSub, byName, byCname := SubdomainOf(pageHost), ByName(table), ByCname(table, dns);
    StagesSpec(Candidates(assets), isSub, byName, byCname);
    forall h ensures Visible(isSub, byName, byCname, h) == Recognisable(table, pageHost, dns, h) {
    }
  }

  /** A subdomain whose CNAME records reveal a CDN wins: the verdict is a subdomain's, taken from its CNAMEs. */
  lemma DetectSubdomainFirst(table: seq<Signature>, pageHost: string, assets: seq<Group>, dns: Dns, h: string)
    requires h in Candidates(assets) && IsSubdomain(pageHost, h) && CnameCdn(table, dns, h).Some?
    ensures var d := Detect(table, pageHost, assets, dns);
            d.verdict.Some? && IsSubdomain(pageHost, d.verdict.value.host) &&
            CnameCdn(table, dns, d.verdict.value.host) == Some(d.verdict.value.cdn)
  {
    StagesSubdomainFirst(Candidates(assets), SubdomainOf(pageHost), ByName(table), ByCname(table, dns), h);
  }

  /**
   * With no subdomain revealed by CNAME, an external host whose own name is in the table
   * wins over every CNAME of the external hosts, and no external host is queried.
   */
  lemma DetectDirectBeforeCname(table: seq<Signature>, pageHost: string, assets: seq<Group>, dns: Dns, h: string)
    requires forall s :: s in Candidates(assets) && IsSubdomain(pageHost, s) ==> CnameCdn(table, dns, s).None?
    requires h in Candidates(assets) && !IsSubdomain(pageHost, h) && Lookup(table, h).Some?
    ensures var d := Detect(table, pageHost, assets, dns);
            d.verdict.Some? && !IsSubdomain(pageHost, d.verdict.value.host) &&
            Lookup(table, d.verdict.value.host) == Some(d.verdict.value.cdn) &&
            d.queried == Side(Candidates(assets), SubdomainOf(pageHost), true)
  {
    StagesDirectBeforeCname(Candidates(assets), SubdomainOf(pageHost), ByName(table), ByCname(table, dns), h);
  }

  /**
   * The hosts queried are candidates; all subdomain candidates are queried; an external
   * candidate is queried exactly when the first two stages find nothing.
   */
  lemma DetectQueries(table: seq<Signature>, pageHost: string, assets: seq<Group>, dns: Dns)
    ensures var d := Detect(table, pageHost, assets, dns);
            var hosts := Candidates(assets);
            var early := FirstVerdict(Side(hosts, SubdomainOf(pageHost), true), ByCname(table, dns)).Some? ||
                         FirstVerdict(Side(hosts, SubdomainOf(pageHost), false), ByName(table)).Some?;
            forall h :: h in d.queried <==> h in hosts && (IsSubdomain(pageHost, h) || !early)
  {
    StagesQueries(Candidates(assets), SubdomainOf(pageHost), ByName(table), ByCname(table, dns));
  }

  /** The outcome depends on the CNAME lookup only through its answers for the hosts. */
  lemma StagesAgree(hosts: seq<string>, isSub: string -> bool, byName: string -> Option<string>,
                    f: string -> Option<string>, g: string -> Option<string>)
    requires forall h :: h in hosts ==> f(h) == g(h)
    ensures Stages(hosts, isSub, byName, f) == Stages(hosts, isSub, byName, g)
  {
    SideSpec(hosts, isSub);
    FirstVerdictAgree(Side(hosts, isSub, true), f, g);
    FirstVerdictAgree(Side(hosts, isSub, false), f, g);
  }

  /** The verdict depends on the DNS only through the CNAME answers for the candidate hosts. */
  lemma DetectRecords(table: seq<Signature>, pageHost: string, assets: seq<Group>, dns1: Dns, dns2: Dns)
    requires forall h :: h in Candidates(assets) ==> Records(dns1, h) == Records(dns2, h)
    ensures Detect(table, pageHost, assets, dns1) == Detect(table, pageHost, assets, dns2)
  {
    var f, g := ByCname(table, dns1), ByCname(table, dns2);
    forall h | h in Candidates(assets) ensures f(h) == g(h) {
      assert Records(dns1, h) == Records(dns2, h);
    }
    StagesAgree(Candidates(assets), SubdomainOf(pageHost), ByName(table), f, g);
  }

  /** A failed lookup and an empty answer lead to the same result. */
  lemma DnsErrorIsNoData(table: seq<Signature>, pageHost: string, assets: seq<Group>, dns: Dns, h: string)
    ensures Detect(table, pageHost, assets, dns - {h}) == Detect(table, pageHost, assets, dns[h := []])
  {
    forall s | s in Candidates(assets) ensures Records(dns - {h}, s) == Records(dns[h := []], s) {
    }
    DetectRecords(table, pageHost, assets, dns - {h}, dns[h := []]);
  }

  lemma {:induction false} NoCandidates(assets: seq<Group>)
    requires forall i :: 0 <= i < |assets| ==> |assets[i].resources| < 3
    ensures Candidates(assets) == []
  {
    if assets != [] {
      assert forall i :: 0 <= i < |assets[1..]| ==> |assets[1..][i].resources| < 3 by {
        forall i | 0 <= i < |assets[1..]| ensures |assets[1..][i].resources| < 3 { assert assets[1..][i] == assets[i + 1]; }
      }
      NoCandidates(assets[1..]);
    }
  }

  /** Without a host holding three static assets nothing is looked up and there is no verdict. */
  lemma DetectNoCandidates(table: seq<Signature>, pageHost: string, assets: seq<Group>, dns: Dns)
    requires forall i :: 0 <= i < |assets| ==> |assets[i].resources| < 3
    ensures Detect(table, pageHost, assets, dns) == Detection(None, [])
  {
    NoCandidates(assets);
  }

  // ---------------------------------------------------------------------------
  // The detection scenarios of the test suite, for any order of the candidates
  // ---------------------------------------------------------------------------

  /** A name ending in the page host is a subdomain: the page's own host too, with no dot boundary. */
  lemma SubdomainByPrefix(pageHost: string, prefix: string)
    ensures IsSubdomain(pageHost, prefix + pageHost)
  {
    var h, r := prefix + pageHost, StripWww(pageHost);
    IsSubdomainSpec(pageHost, h);
    assert Lower(h)[|h| - |r|..] == Lower(r) by {
      forall i | 0 <= i < |r| ensures Lower(h)[|h| - |r|..][i] == Lower(r)[i] {
        assert h[|h| - |r| + i] == r[i];
      }
    }
  }


  /** The page's own host is a subdomain of itself. */
  lemma OwnHost(pageHost: string)
    ensures IsSubdomain(pageHost, pageHost)
  {
    SubdomainByPrefix(pageHost, "");
    assert "" + pageHost == pageHost;
  }

  lemma ExternalsOfFooCom()
    ensures !IsSubdomain("foo.com", "baz.com") && !IsSubdomain("foo.com", "foo.turbobytes.com")
  {
    var p, b, t := "foo.com", "baz.com", "foo.turbobytes.com";
    assert p[0] != "www."[0];
    assert Lower(p) == p && Lower(b) == b && Lower(t) == t;
    IsSubdomainSpec(p, b);
    IsSubdomainSpec(p, t);
    assert t[11..] != p;
  }

  /**
   * The DNS answers of the subdomain scenario for page host `p`: one CDN CNAME, one empty
   * answer, one CNAME outside the table; `p` itself has no answer.
   */
  function ScenarioDns(p: string): (dns: Dns)
    ensures "c." + p in dns && "b." + p in dns && "a." + p in dns && p !in dns
  {
    map["c." + p := ["foobar.turbobytes.com"], "b." + p := [], "a." + p := ["not-a-cdn-k.com"]]
  }

  lemma ScenarioDnsAnswers(p: string)
    ensures CnameCdn(Signatures, ScenarioDns(p), "c." + p) == Some("Turbobytes")
    ensures CnameCdn(Signatures, ScenarioDns(p), "a." + p).None? && CnameCdn(Signatures, ScenarioDns(p), "b." + p).None?
    ensures CnameCdn(Signatures, ScenarioDns(p), p).None?
  {
    var dns, a, b, c := ScenarioDns(p), "a." + p, "b." + p, "c." + p;
    assert a[0] != b[0] && a[0] != c[0] && b[0] != c[0];
    assert dns[c] == ["foobar.turbobytes.com"] && dns[a] == ["not-a-cdn-k.com"] && dns[b] == [];
    FirstCdnSingle(Signatures, "foobar.turbobytes.com");
    TurbobytesSubdomainExample();
    FirstCdnSingle(Signatures, "not-a-cdn-k.com");
    NotACdnExample();
  }

  /** The candidates of the subdomain scenario: the page's own host and three of its subdomains. */
  function ScenarioHosts(p: string): seq<string>
  {
    [p, "b." + p, "a." + p, "c." + p]
  }

  lemma ScenarioHostsAreSubdomains(p: string)
    ensures forall h :: h in ScenarioHosts(p) ==> IsSubdomain(p, h)
  {
    OwnHost(p);
    SubdomainByPrefix(p, "a.");
    SubdomainByPrefix(p, "b.");
    SubdomainByPrefix(p, "c.");
  }

  lemma ScenarioDnsMisses(p: string)
    ensures forall h :: h in ScenarioHosts(p) && h != "c." + p ==> CnameCdn(Signatures, ScenarioDns(p), h).None?
  {
    ScenarioDnsAnswers(p);
  }

  /**
   * Page `p` with candidates p, a.p, b.p and c.p: only c.p has a CNAME in the table, so the
   * verdict is Turbobytes on c.p.
   */
  lemma SubdomainScenarioFor(p: string, assets: seq<Group>)
    requires forall h :: h in Candidates(assets) <==> h in ScenarioHosts(p)
    ensures Detect(Signatures, p, assets, ScenarioDns(p)).verdict == Some(Verdict("Turbobytes", "c." + p))
  {
    ScenarioHostsAreSubdomains(p);
    ScenarioDnsMisses(p);
    ScenarioDnsAnswers(p);
    SubdomainCname(Signatures, p, assets, ScenarioDns(p), ScenarioHosts(p), "c." + p, "Turbobytes");
  }

  lemma FooComHosts()
    ensures ScenarioHosts("foo.com") == ["foo.com", "b.foo.com", "a.foo.com", "c.foo.com"]
    ensures "c." + "foo.com" == "c.foo.com"
  {
    var p := "foo.com";
    assert "a." + p == "a.foo.com" && "b." + p == "b.foo.com" && "c." + p == "c.foo.com";
  }

  /** The subdomain scenario on page `foo.com`: the verdict is Turbobytes on c.foo.com. */
  lemma SubdomainCnameScenario(assets: seq<Group>)
    requires forall h :: h in Candidates(assets) <==> h in ["foo.com", "b.foo.com", "a.foo.com", "c.foo.com"]
    ensures Detect(Signatures, "foo.com", assets, ScenarioDns("foo.com")).verdict == Some(Verdict("Turbobytes", "c.foo.com"))
  {
    FooComHosts();
    SubdomainScenarioFor("foo.com", assets);
  }

  /** Subdomain candidates only, exactly one of which has a CNAME the table knows: it is the verdict. */
  lemma SubdomainCname(table: seq<Signature>, pageHost: string, assets: seq<Group>, dns: Dns, hosts: seq<string>, c: string, cdn: string)
    requires forall h :: h in Candidates(assets) <==> h in hosts
    requires forall h :: h in hosts ==> IsSubdomain(pageHost, h)
    requires c in hosts && CnameCdn(table, dns, c) == Some(cdn)
    requires forall h :: h in hosts && h != c ==> CnameCdn(table, dns, h).None?
    ensures Detect(table, pageHost, assets, dns).verdict == Some(Verdict(cdn, c))
  {
    DetectSubdomainFirst(table, pageHost, assets, dns, c);
    DetectSpec(table, pageHost, assets, dns);
  }

  /** Two external candidates, only the second of which the table knows by name: it is the verdict. */
  lemma ExternalNamePair(table: seq<Signature>, pageHost: string, assets: seq<Group>, dns: Dns, a: string, t: string, cdn: string)
    requires forall h :: h in Candidates(assets) <==> h == a || h == t
    requires !IsSubdomain(pageHost, a) && !IsSubdomain(pageHost, t)
    requires Lookup(table, a).None? && Lookup(table, t) == Some(cdn)
    ensures Detect(table, pageHost, assets, dns).verdict == Some(Verdict(cdn, t))
  {
    DetectDirectBeforeCname(table, pageHost, assets, dns, t);
    DetectSpec(table, pageHost, assets, dns);
  }

  /**
   * Page `foo.com` with the external candidates baz.com and foo.turbobytes.com: whatever the
   * DNS says, the second is recognised by its own name.
   */
  lemma ExternalNameScenario(assets: seq<Group>, dns: Dns)
    requires forall h :: h in Candidates(assets) <==> h in ["baz.com", "foo.turbobytes.com"]
    ensures Detect(Signatures, "foo.com", assets, dns).verdict == Some(Verdict("Turbobytes", "foo.turbobytes.com"))
  {
    ExternalsOfFooCom();
    BazExample();
    TurbobytesExternalExample();
    ExternalNamePair(Signatures, "foo.com", assets, dns, "baz.com", "foo.turbobytes.com", "Turbobytes");
  }

  /** Page `foo.com` whose only candidate baz.com has no CDN CNAME: no verdict. */
  lemma NoCdnScenario(assets: seq<Group>, dns: Dns)
    requires forall h :: h in Candidates(assets) <==> h == "baz.com"
    requires CnameCdn(Signatures, dns, "baz.com").None?
    ensures Detect(Signatures, "foo.com", assets, dns).verdict.None?
  {
    BazExample();
    DetectSpec(Signatures, "foo.com", assets, dns);
  }
}
