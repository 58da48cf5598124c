/**
 * The CDN signature table of lib/cdn.js and the first-match lookup over it
 * (the pure content of `Page.getCDNByHostname`).
 */
module Cdn {

  import opened Wrappers
  import opened Strings
  import opened Regex

  /** CDN name and its hostname patterns; the order of rows and of patterns is part of the semantics. */
  type Signature = (string, seq<Pattern>)

  /**
   * lib/cdn.js in declaration order. The first Akamai regex is an alternation of six
   * `\.net`-anchored words; it is written here as the six suffix literals it accepts,
   * which leaves the Akamai row's verdict unchanged.
   */
  const Signatures: seq<Signature> := [
    ("Akamai", [Suffix("edgesuite.net", true), Suffix("edgekey.net", true), Suffix("akamai.net", true),
                Suffix("akamaiedge.net", true), Suffix("akamaihd.net", true), Suffix("srip.net", true),
                Suffix("akamaitechnologies.com", true), Suffix("akadns.net", true)]),
    ("Turbobytes", [Suffix("turbobytes.com", true)]),
    ("Edgecast", [Suffix("edgecastcdn.net", true)]),
    ("CloudFront", [Suffix("cloudfront.net", true)]),
    ("CDNetworks", [Suffix("cdngc.net", true)]),
    ("CacheFly", [Contains("cachefly.", false)]),
    ("CloudFare", [Suffix("cloudfare.net", true)]),
    ("CDN77", [Suffix("cdn77.net", true)]),
    ("Fastly", [Contains("fastly.net", true)]),
    ("Level3", [Suffix("footprint.net", true)]),
    ("NetDNA", [Suffix("netdna-cdn.com", true), Suffix("netdna-ssl.com", true)]),
    ("BitGravity", [Suffix("bitgravity.com", true)]),
    ("Internap", [Suffix("internapcdn.net", true)]),
    ("CoralCDN", [Suffix("nyud.net", true)])
  ]

  function Names(table: seq<Signature>): seq<string> {
    seq(|table|, i requires 0 <= i < |table| => table[i].0)
  }

  /** Name of the first CDN, in table order, with a pattern matching the hostname. */
  function Lookup(table: seq<Signature>, hostname: string): Option<string>
    decreases |table|
  {
    if table == [] then None
    else if AnyMatch(table[0].1, hostname) then Some(table[0].0)
    else Lookup(table[1..], hostname)
  }

  /** Row i is the first row of the table with a pattern matching the hostname. */
  ghost predicate FirstMatch(table: seq<Signature>, hostname: string, i: int) {
    0 <= i < |table| && AnyMatch(table[i].1, hostname) &&
    forall j :: 0 <= j < i ==> !AnyMatch(table[j].1, hostname)
  }

  /** Lookup answers the first matching row's name, and none exactly when no row matches. */
  lemma {:induction false} LookupFirstMatch(table: seq<Signature>, hostname: string)
    ensures forall i :: FirstMatch(table, hostname, i) ==> Lookup(table, hostname) == Some(table[i].0)
    ensures Lookup(table, hostname).None? <==> forall i :: 0 <= i < |table| ==> !AnyMatch(table[i].1, hostname)
    ensures Lookup(table, hostname).Some? ==> exists i :: FirstMatch(table, hostname, i)
    decreases |table|
  {
    if table != [] {
      LookupFirstMatch(table[1..], hostname);
      forall i | FirstMatch(table, hostname, i) ensures Lookup(table, hostname) == Some(table[i].0) {
        if i > 0 {
          assert FirstMatch(table[1..], hostname, i - 1);
        }
      }
      if !AnyMatch(table[0].1, hostname) {
        if Lookup(table, hostname).Some? {
          var k :| FirstMatch(table[1..], hostname, k);
          assert FirstMatch(table, hostname, k + 1);
        }
        if Lookup(table, hostname).None? {
          forall i | 0 <= i < |table| ensures !AnyMatch(table[i].1, hostname) {
            if i > 0 { assert table[i] == table[1..][i - 1]; }
          }
        }
      } else {
        assert FirstMatch(table, hostname, 0);
      }
    }
  }

  /** The table's rows in order, with distinct names and at least one pattern each. */
  lemma SignaturesShape()
    ensures Names(Signatures) == ["Akamai", "Turbobytes", "Edgecast", "CloudFront", "CDNetworks", "CacheFly",
                                  "CloudFare", "CDN77", "Fastly", "Level3", "NetDNA", "BitGravity",
                                  "Internap", "CoralCDN"]
    ensures forall i, j :: 0 <= i < j < |Signatures| ==> Signatures[i].0 != Signatures[j].0
    ensures forall i :: 0 <= i < |Signatures| ==> |Signatures[i].1| > 0
  {
  }

  const AkamaiSuffixes: seq<string> := ["edgesuite.net", "edgekey.net", "akamai.net", "akamaiedge.net",
                                        "akamaihd.net", "srip.net", "akamaitechnologies.com", "akadns.net"]

  /** A hostname ending, in any case, in one of the Akamai domains is attributed to Akamai. */
  lemma AkamaiByName(hostname: string, k: nat)
    requires k < |AkamaiSuffixes| && EndsWith(Lower(hostname), AkamaiSuffixes[k])
    ensures Lookup(Signatures, hostname) == Some("Akamai")
  {
    var p := Signatures[0].1[k];
    assert p == Suffix(AkamaiSuffixes[k], true);
    assert Lower(AkamaiSuffixes[k]) == AkamaiSuffixes[k];
    SuffixTest(AkamaiSuffixes[k], true, hostname);
    AnyMatchSpec(Signatures[0].1, hostname);
  }

  /** Two suffixes of one string: the shorter is a suffix of the longer. */
  lemma SuffixesNest(s: string, a: string, b: string)
    requires EndsWith(s, a) && EndsWith(s, b) && |a| <= |b|
    ensures EndsWith(b, a)
  {
    assert b[|b| - |a|..] == s[|s| - |a|..];
  }

  /** No Akamai domain is a suffix of a name that ends in `turbobytes.com`. */
  lemma AkamaiExcludesTurbobytes(s: string, k: nat)
    requires k < |AkamaiSuffixes| && EndsWith(s, "turbobytes.com")
    ensures !EndsWith(s, AkamaiSuffixes[k])
  {
    var a := AkamaiSuffixes[k];
    if EndsWith(s, a) {
      if |a| <= 14 {
        SuffixesNest(s, a, "turbobytes.com");
      } else {
        SuffixesNest(s, "turbobytes.com", a);
      }
    }
  }

  /**
   * Any hostname ending, in any case, in `turbobytes.com` is attributed to Turbobytes,
   * with no dot boundary: `foobar.turbobytes.com` and `xturbobytes.com` alike. No
   * Akamai pattern, which comes first, can match such a name.
   */
  lemma TurbobytesByName(hostname: string)
    requires EndsWith(Lower(hostname), "turbobytes.com")
    ensures Lookup(Signatures, hostname) == Some("Turbobytes")
  {
    var akamai := Signatures[0].1;
    forall k | 0 <= k < |akamai| ensures !Test(akamai[k], hostname) {
      AkamaiPattern(k);
      SuffixTest(AkamaiSuffixes[k], true, hostname);
      AkamaiExcludesTurbobytes(Lower(hostname), k);
    }
    AnyMatchSpec(akamai, hostname);
    var rest := Signatures[1..];
    assert rest[0] == ("Turbobytes", [Suffix("turbobytes.com", true)]);
    assert Lower("turbobytes.com") == "turbobytes.com";
    SuffixTest("turbobytes.com", true, hostname);
    AnyMatchSpec(rest[0].1, hostname);
    assert Lookup(Signatures, hostname) == Lookup(rest, hostname);
  }

  lemma AkamaiPattern(k: nat)
    requires k < |AkamaiSuffixes|
    ensures Signatures[0].1[k] == Suffix(AkamaiSuffixes[k], true)
    ensures Lower(AkamaiSuffixes[k]) == AkamaiSuffixes[k]
  {
  }

  /** Whatever comes before `turbobytes.com`, in whatever case, the name is Turbobytes'. */
  lemma TurbobytesAfter(prefix: string)
    ensures Lookup(Signatures, prefix + "turbobytes.com") == Some("Turbobytes")
  {
    var h, t := prefix + "turbobytes.com", "turbobytes.com";
    assert Lower(t) == t;
    assert Lower(h)[|h| - |t|..] == t by {
      forall i | 0 <= i < |t| ensures Lower(h)[|h| - |t|..][i] == t[i] {
        assert h[|h| - |t| + i] == t[i];
      }
    }
    TurbobytesByName(h);
  }

  lemma TurbobytesSubdomainExample()
    ensures Lookup(Signatures, "foobar.turbobytes.com") == Some("Turbobytes")
  {
    assert "foobar." + "turbobytes.com" == "foobar.turbobytes.com";
    TurbobytesAfter("foobar.");
  }

  lemma TurbobytesExternalExample()
    ensures Lookup(Signatures, "foo.turbobytes.com") == Some("Turbobytes")
  {
    assert "foo." + "turbobytes.com" == "foo.turbobytes.com";
    TurbobytesAfter("foo.");
  }

  lemma TurbobytesNoDotExample()
    ensures Lookup(Signatures, "xturbobytes.com") == Some("Turbobytes")
  {
    assert "x" + "turbobytes.com" == "xturbobytes.com";
    TurbobytesAfter("x");
  }

  /** The CacheFly row is one case-sensitive substring test for `cachefly.`. */
  lemma CacheFlyByName(hostname: string)
    ensures Signatures[5].0 == "CacheFly"
    ensures AnyMatch(Signatures[5].1, hostname) <==> exists k :: OccursAt(hostname, "cachefly.", k)
  {
    var row := Signatures[5].1;
    assert row == [Contains("cachefly.", false)];
    ContainsTest("cachefly.", false, hostname);
    assert Fold(hostname, false) == hostname && Fold("cachefly.", false) == "cachefly.";
    AnyMatchSpec(row, hostname);
    assert AnyMatch(row, hostname) <==> Test(row[0], hostname);
  }

  /** The Fastly row is one case-insensitive substring test for `fastly.net`, anchored nowhere. */
  lemma FastlyByName(hostname: string)
    ensures Signatures[8].0 == "Fastly"
    ensures AnyMatch(Signatures[8].1, hostname) <==> exists k :: OccursAt(Lower(hostname), "fastly.net", k)
  {
    var row := Signatures[8].1;
    assert row == [Contains("fastly.net", true)];
    assert Lower("fastly.net") == "fastly.net";
    ContainsTest("fastly.net", true, hostname);
    assert Fold(hostname, true) == Lower(hostname) && Fold("fastly.net", true) == "fastly.net";
    AnyMatchSpec(row, hostname);
    assert AnyMatch(row, hostname) <==> Test(row[0], hostname);
  }

  /**
   * The three kinds of pattern the table holds: a case-insensitive suffix ending in `t`
   * (the `.net` domains), a case-insensitive suffix whose fifth character from the end is
   * `s`, `n`, `l` or `y` (the `.com` domains), and a substring test needing a `y`.
   */
  predicate NetSuffix(p: Pattern) {
    p.Suffix? && p.ignoreCase && |p.literal| > 0 && p.literal[|p.literal| - 1] == 't'
  }

  predicate ComSuffix(p: Pattern) {
    p.Suffix? && p.ignoreCase && |p.literal| >= 5 && p.literal[|p.literal| - 5] in {'s', 'n', 'l', 'y'}
  }

  predicate NeedsY(p: Pattern) {
    p.Contains? && exists j :: 0 <= j < |p.literal| && Fold(p.literal, p.ignoreCase)[j] == 'y'
  }

  lemma RowKinds(i: nat)
    requires i < |Signatures|
    ensures forall k :: 0 <= k < |Signatures[i].1| ==>
              NetSuffix(Signatures[i].1[k]) || ComSuffix(Signatures[i].1[k]) || NeedsY(Signatures[i].1[k])
  {
    if i == 5 {
      var p := Signatures[5].1[0];
      assert p == Contains("cachefly.", false);
      assert Fold(p.literal, p.ignoreCase)[7] == 'y';
    } else if i == 8 {
      var p := Signatures[8].1[0];
      assert p == Contains("fastly.net", true);
      assert Fold(p.literal, p.ignoreCase)[5] == 'y';
    }
  }

  /** What a hostname must avoid for no pattern of the table to match it. */
  predicate OutsideTable(hostname: string) {
    && (forall j :: 0 <= j < |hostname| ==> Lower(hostname)[j] != 'y' && hostname[j] != 'y')
    && (|hostname| == 0 || Lower(hostname)[|hostname| - 1] != 't')
    && (|hostname| < 5 || Lower(hostname)[|hostname| - 5] !in {'s', 'n', 'l', 'y'})
  }

  lemma PatternMiss(p: Pattern, hostname: string)
    requires NetSuffix(p) || ComSuffix(p) || NeedsY(p)
    requires OutsideTable(hostname)
    ensures !Test(p, hostname)
  {
    if NetSuffix(p) {
      SuffixCharAt(p.literal, true, hostname, 0);
    } else if ComSuffix(p) {
      SuffixCharAt(p.literal, true, hostname, 4);
    } else {
      var j :| 0 <= j < |p.literal| && Fold(p.literal, p.ignoreCase)[j] == 'y';
      ContainsChar(p.literal, p.ignoreCase, hostname, j);
    }
  }

  /**
   * A hostname that ends, in any case, in neither `t` nor one of the `.com` endings of the
   * table and has no `y` in it belongs to no CDN.
   */
  lemma NoCdnFor(hostname: string)
    requires OutsideTable(hostname)
    ensures Lookup(Signatures, hostname) == None
  {
    forall i | 0 <= i < |Signatures| ensures !AnyMatch(Signatures[i].1, hostname) {
      var row := Signatures[i].1;
      RowKinds(i);
      forall k | 0 <= k < |row| ensures !Test(row[k], hostname) {
        PatternMiss(row[k], hostname);
      }
      AnyMatchSpec(row, hostname);
    }
    LookupFirstMatch(Signatures, hostname);
  }

  lemma NotACdnExample()
    ensures Lookup(Signatures, "not-a-cdn-k.com") == None
  {
    NoCdnFor("not-a-cdn-k.com");
  }

  lemma BazExample()
    ensures Lookup(Signatures, "baz.com") == None
  {
    NoCdnFor("baz.com");
  }
}
