# pagespy CDN detection, modelled in Dafny

pagespy loads a web page and guesses which content delivery network (CDN) serves its
static assets. This project models that pipeline and proves properties of it:

- **`Spy.load`** (lib/spy.js)
  - normalises the URL: a bare host gets `http://`, and any scheme other than `http` or
    `https` is refused;
  - sends requests through an injected transport with a bounded number of retries;
  - builds a `Page` from the first good reply.
- **`Page`** (lib/page.js)
  - scans the body for ` href="…"` and ` src='…'` values;
  - makes each value absolute against the page URL, and caches the list in
    `this.resources`;
  - groups the resources by hostname and sorts the groups by decreasing size;
  - keeps the static assets;
  - looks hostnames up in the CDN table;
  - runs a staged search, `getCDN`:
    1. the CNAME records of subdomain hosts;
    2. the names of external hosts;
    3. the CNAME records of external hosts.
- **The CDN table** (lib/cdn.js): an ordered list of CDN names, each with its hostname
  patterns.

## Modules

| module | contents |
|---|---|
| `Wrappers` | `Option` and `Result` |
| `Strings` | lower-casing, prefix/suffix tests, the decimal text of a status code |
| `Regex` | the only regex shapes the table uses: an anchored suffix literal and an unanchored substring literal, each optionally case-insensitive, with `test` as a search over start positions |
| `Cdn` | the `Signatures` table in source order, and `Lookup`, the first-match search over it |
| `Urls` | a URL record (protocol, host, pathname, search, hash) with a simplified `url.parse` and `url.format`; the `url_protocol` regex; `path.resolve` as a segment stack; `buildURL` |
| `Scan` | the resource regex `/ (?:href\|src)=("\|')([^\1]+?)\1/ig` as explicit predicates, and its `exec` loop |
| `Resources` | the resolution of one scanned value, and the resource list of a page |
| `Grouping` | the hostname grouping, the size sort and the static-asset filter, as functions |
| `Detection` | `isSubdomain` and the `getCDN` search, as a pure function of the candidates and a DNS map |
| `Pages` | the `Page` class. Its loops are methods proved against the functions above; the `resources` field is the cache |
| `Fetch` | the `Spy` class and `load`; the retry loop as a function of the transport's replies |

## Model

| member | source | states |
|---|---|---|
| `Cdn.SignaturesShape` | lib/cdn.js:5-50 | The table lists the 14 CDNs in source order, from Akamai to CoralCDN. Their names are pairwise distinct, and every CDN has at least one pattern. |
| `Cdn.LookupFirstMatch` | lib/page.js:176-187 | `Lookup` answers the name of the first row, in table order, with a pattern that matches. It answers nothing exactly when no pattern of any row matches. |
| `Cdn.AkamaiByName` | lib/cdn.js:6-10 | A hostname that ends, in any case, in one of the eight Akamai domains is attributed to Akamai. |
| `Cdn.AkamaiPattern` | lib/cdn.js:6-10 | Each Akamai pattern is a case-insensitive suffix test for one of the Akamai domains, all written in lower case. |
| `Cdn.AkamaiExcludesTurbobytes` | lib/cdn.js:6-13 | No Akamai domain is a suffix of a name that ends in `turbobytes.com`. Akamai, which comes first in the table, therefore cannot take Turbobytes' names. |
| `Cdn.TurbobytesByName` | lib/cdn.js:11-13 | Any hostname ending, in any case, in `turbobytes.com` is attributed to Turbobytes. There is no dot boundary. |
| `Cdn.TurbobytesAfter` | lib/cdn.js:11-13 | Whatever prefix comes before `turbobytes.com`, the name is attributed to Turbobytes. |
| `Cdn.TurbobytesSubdomainExample` | test/spy.js:160-169 | `foobar.turbobytes.com` is attributed to Turbobytes. |
| `Cdn.TurbobytesExternalExample` | test/spy.js:203-229 | `foo.turbobytes.com` is attributed to Turbobytes. |
| `Cdn.TurbobytesNoDotExample` | lib/cdn.js:12 | `xturbobytes.com` is attributed to Turbobytes: an anchored pattern is a plain suffix test. |
| `Cdn.CacheFlyByName` | lib/cdn.js:23-25 | The CacheFly row matches exactly the names that contain `cachefly.`, case-sensitively. |
| `Cdn.FastlyByName` | lib/cdn.js:32-34 | The Fastly row matches exactly the names that contain `fastly.net` anywhere, in any case. |
| `Cdn.NoCdnFor` | lib/cdn.js:5-50 | A name with no `y`, not ending in `t`, and whose fifth character from the end is none of `s`, `n`, `l`, `y` (all in any case) belongs to no CDN in the table: every row is a `.net` suffix, one of those `.com` suffixes, or a substring test needing a `y`. |
| `Cdn.NotACdnExample` | lib/cdn.js:5-50 | `not-a-cdn-k.com` belongs to no CDN. |
| `Cdn.BazExample` | test/spy.js:231-253 | `baz.com` belongs to no CDN. |
| `Regex.SearchFromSpec` | lib/cdn.js:5-50 | Searching from position k succeeds exactly when the pattern matches at some position from k to the end. |
| `Regex.LiteralAtFold` | lib/cdn.js:5-50 | A literal matches at position k exactly when, with both sides case-folded under the `i` flag, it occurs at k. |
| `Regex.SuffixTest` | lib/cdn.js:5-50 | An anchored pattern `literal$` matches exactly when the possibly case-folded subject ends in the literal. |
| `Regex.ContainsTest` | lib/cdn.js:23-25 | An unanchored pattern matches exactly when the literal occurs somewhere in the subject. |
| `Regex.AnyMatchSpec` | lib/page.js:179-185 | A list of patterns matches exactly when one of its patterns does. |
| `Regex.SuffixCharAt` | lib/cdn.js:5-50 | A suffix match fixes the subject's last characters to the literal's. |
| `Regex.ContainsChar` | lib/cdn.js:23-34 | A substring match needs every character of the literal to occur in the subject. |
| `Strings.FirstOf` | lib/page.js:85-86 | The index returned is that of the first character from the set, or the length when there is none. No earlier character is in the set. |
| `Strings.NatToString` | lib/spy.js:60 | The decimal text of a number is non-empty and all digits. |
| `Strings.NatToStringValue` | lib/spy.js:60 | Reading the decimal text back gives the number. |
| `Urls.AlnumRun` | lib/page.js:13 | The run measured is the longest prefix of letters and digits. |
| `Urls.LazySchemeSpec` | lib/page.js:13 | The lazy `[a-z0-9]+?` finds the shortest scheme candidate, from length n on, that lets the regex match. |
| `Urls.SchemeSpec` | lib/page.js:13 | The `url_protocol` regex captures a prefix exactly when that prefix lets it match. It fails exactly when no prefix does. |
| `Urls.SchemeOfPrefixed` | lib/spy.js:9 | For `p://rest` with p made of letters and digits, the regex captures p. |
| `Urls.SchemeSlash` | lib/page.js:13 | The second character after a captured scheme is a `/`. |
| `Urls.SchemeNeedsAlnum` | lib/page.js:13 | Text whose first character is not a letter or digit never matches. |
| `Urls.SchemeNeedsSlash` | lib/page.js:13 | Text with no `/` never matches. |
| `Urls.ParseScheme` | lib/page.js:30 | `p://rest` parses to the lower-cased protocol `p:` and the authority and path of rest. |
| `Urls.ParseTail` | lib/page.js:130 | A tail split at its first `?` and `#` gives back its pathname, search and hash. |
| `Urls.ParseHost` | lib/page.js:130 | The host is everything up to the first `/`, `?` or `#`, in lower case. An empty pathname becomes `/`. |
| `Urls.ProtocolName` | lib/page.js:30 | A valid protocol is a lower-case run of letters and digits followed by `:`. |
| `Urls.ParseFormat` | lib/page.js:90 | Formatting a well-formed URL record and parsing the text back gives the same record. |
| `Urls.SplitTailShape` | lib/page.js:130 | The three pieces concatenate to the tail. The pathname has no `?` or `#`, the search starts with `?` and has no `#`, and the hash starts with `#`. |
| `Urls.ParseAuthorityWellFormed` | lib/page.js:30 | Whatever follows a valid protocol, the parsed record is well formed. |
| `Urls.ParseWellFormed` | lib/page.js:30 | Any text of the form `scheme://…` parses to a well-formed record. |
| `Urls.LowerProtocol` | lib/page.js:30 | A lower-cased run of letters and digits with `:` after it is a valid protocol. |
| `Urls.Split` | lib/page.js:85-86 | `split('/')` always yields at least one field. |
| `Urls.NormalizeProper` | lib/page.js:110 | Normalising keeps only segments that are not empty, `.` or `..`. |
| `Urls.NormalizeAppend` | lib/page.js:110 | Normalising two runs of segments one after the other is normalising their concatenation. |
| `Urls.ResolveDoubleSlash` | lib/page.js:110 | A doubled slash in the base is an empty segment and vanishes: `c` on `a//b` is `/a/b/c`. |
| `Urls.ParseNoAuthority` | lib/page.js:30 | Text whose leading run of letters and digits is not followed by `://` parses with no protocol and no host. Without `?` and `#` it is all pathname. |
| `Urls.BuildUrlWithoutHost` | lib/page.js:80-90 | On a record with neither protocol nor host, `buildURL` of a rooted path is a rooted path. |
| `Urls.ResolveNormal` | lib/page.js:110 | The result of `path.resolve` starts with `/`, and none of its segments is empty, `.` or `..`. |
| `Urls.ResolveAbsolute` | lib/page.js:110 | A value starting with `/` resolves the same against every base. |
| `Urls.ResolveBelowBase` | lib/page.js:110 | The base is a directory: a plain name is appended below the base's normalised segments, and the base's last segment is not replaced. |
| `Urls.ResolveRootName` | lib/page.js:110 | `/name` resolves to itself against any base. |
| `Urls.ResolveParent` | lib/page.js:110 | `../name` on the one-directory base `/dir` gives `/name`. |
| `Urls.BuildUrlRoundTrip` | lib/page.js:77-91 | Parsing what `buildURL` builds gives the page's protocol and host. The pathname, search and hash are those cut from the path at its first `#` and then its first `?`. |
| `Urls.BuildUrlPlain` | lib/page.js:77-91 | A path without `?` or `#` becomes the pathname. The page's own search and hash are dropped. |
| `Urls.BuildUrlFields` | lib/page.js:85-89 | `pathname?query#fragment` is cut into its three parts. |
| `Scan.CloseQuote` | lib/page.js:101 | When the lazy run closes, it stops at an index at or after its start and within the body. |
| `Scan.CloseQuoteSpec` | lib/page.js:101 | The lazy run closes at c exactly when `body[c]` is the opening quote and nothing between the start and c is the quote or U+0001 (the character `[^\1]` excludes). |
| `Scan.Quoted` | lib/page.js:101 | A match found after the opening quote starts where the attempt started. It ends at least three characters past the quote and within the body. |
| `Scan.MatchAt` | lib/page.js:101 | A match found at k starts at k and ends after k, within the body. |
| `Scan.Exec` | lib/page.js:104 | `exec` from `lastIndex` returns a non-empty match at or after `lastIndex`. |
| `Scan.QuotedFields` | lib/page.js:101 | A quoted match has a quote, a first value character other than U+0001, the same quote closing it, and the value in between. |
| `Scan.AttributeNameSpec` | lib/page.js:101 | The name read is `href=` or `src=`, in any case. |
| `Scan.HrefName` | lib/page.js:101 | `href=` in any case is read as the name. |
| `Scan.SrcName` | lib/page.js:101 | `src=` in any case is read as the name. |
| `Scan.NamesExclusive` | lib/page.js:101 | `src=` and `href=` cannot both start at one index, so the alternation never backtracks into the other name. |
| `Scan.MatchAtSound` | lib/page.js:101 | Every match is an attribute value: a space, the name, a quote, a non-empty shortest run of characters, and the same quote. |
| `Scan.MatchAtComplete` | lib/page.js:101 | Every attribute value is the match at its own start position. |
| `Scan.MatchAtSpec` | lib/page.js:101 | A start position yields a given match exactly when that attribute value begins there. |
| `Scan.ExecFound` | lib/page.js:104 | A match `exec` returns is the regex's match at its start, and no earlier position from `lastIndex` on matches. |
| `Scan.ExecMissing` | lib/page.js:104 | When `exec` returns null, no position from `lastIndex` on matches. |
| `Scan.ExecSpec` | lib/page.js:104 | Combines the two cases above: the first match from `lastIndex` on, or null when there is none. |
| `Scan.MatchesFromExec` | lib/page.js:104-114 | The matches the loop collects were each found by the regex, in order. Each starts at or after the end of the one before. |
| `Scan.MatchesFromSound` | lib/page.js:104-114 | Every value the loop collects is an attribute value, and they come in document order without overlapping. |
| `Scan.MatchesFromCovers` | lib/page.js:104-114 | Every match of the regex from `lastIndex` on is collected, unless it starts inside a value already collected. |
| `Scan.MatchesFromComplete` | lib/page.js:104-114 | The scan misses no attribute value, except one that starts inside a value already collected. |
| `Resources.ResolveProtocolRelative` | lib/page.js:106-107 | A value starting with `//` gets the page's protocol prepended. On a page without a protocol it gets `null`, which is how JavaScript writes the missing protocol in a concatenation. |
| `Resources.ResolveKeepsAbsolute` | lib/page.js:108 | A value the `url_protocol` regex matches is kept as it is. |
| `Resources.ResolveRelativePath` | lib/page.js:108-111 | Any other value is `buildURL` of `path.resolve(pathname, value)`. `url.format` writes `//` before the host only when the page has a host. |
| `Resources.ResolveWithoutHost` | lib/page.js:106-111 | On a page with neither protocol nor host, a protocol-relative or relative value resolves to a URL that has no host either. A relative value becomes a rooted path. |
| `Resources.ResolveAbsolute` | lib/page.js:106-112 | Against a well-formed page every resolved value is absolute for the `url_protocol` regex and does not start with `//`. A value that was relative takes the page's scheme. |
| `Resources.ResolveIdempotent` | lib/page.js:106-112 | Resolving a resolved value changes nothing. |
| `Resources.ResolveRelative` | lib/page.js:108-111 | A relative value keeps the page's protocol and host. Its pathname, query and fragment are those cut from `path.resolve(pathname, value)`, and the page's own query and fragment are gone. |
| `Resources.ResourcesSpec` | lib/page.js:99-118 | There is one resource per scanned value, in the same order. Each is that value resolved, and each is absolute. |
| `Resources.PathResolveName` | lib/page.js:110 | `path.resolve("/dir", name)` is `/dir/name`. |
| `Resources.ResolveName` | lib/page.js:106-112 | On a page whose pathname is `/dir`, `name` becomes `/dir/name`, with no query or fragment. |
| `Resources.ResolveRooted` | lib/page.js:106-112 | `/name` becomes `/name` on any page. |
| `Resources.PathResolveUp` | lib/page.js:110 | `../name?query#fragment` below `/dir` gives `/name?query#fragment`. |
| `Resources.ResolveUp` | lib/page.js:106-112 | `../name?query#fragment` on a page at `/dir` climbs out of `dir` and keeps its own query and fragment. |
| `Resources.FooBarParsed` | test/spy.js:105-128 | `http://foo.com/bar` parses to protocol `http:`, host `foo.com`, pathname `/bar`, and the record is well formed. |
| `Resources.ResolveBelowPage` | test/spy.js:122-128 | `qux.jpg` on `http://foo.com/bar` is `http://foo.com/bar/qux.jpg`. |
| `Resources.ResolveRootExample` | test/spy.js:122-128 | `/foobar.jpg` on `http://foo.com/bar` is `http://foo.com/foobar.jpg`. |
| `Resources.ResolveProtocolRelativeExample` | test/spy.js:122-128 | `//foo.com/style.css` on `http://foo.com/bar` is `http://foo.com/style.css`. |
| `Resources.ResolveParentExample` | test/spy.js:122-128 | `../baz.jpg?foo#bar` on `http://foo.com/bar` is `http://foo.com/baz.jpg?foo#bar`. |
| `Resources.ResolveAbsoluteExample` | test/spy.js:122-128 | `https://baz.com` is kept as it is. |
| `Resources.NoHostParsed` | lib/page.js:30 | `url.parse("http//foo.com")` has no protocol and no host; the whole text is the pathname. |
| `Resources.NoHostProtocolRelative` | lib/page.js:106-107 | `//x.com/a.js` on the page `http//foo.com` is `null//x.com/a.js`. |
| `Resources.NoHostPathText` | lib/page.js:110 | `path.resolve("http//foo.com", "qux.jpg")` is `/http/foo.com/qux.jpg`. |
| `Resources.NoHostBuildText` | lib/page.js:80-90 | `buildURL` on the page `http//foo.com` writes the path `/http/foo.com/qux.jpg` as it is, with no `//`. |
| `Resources.NoHostRelative` | lib/page.js:108-111 | `qux.jpg` on the page `http//foo.com` is `/http/foo.com/qux.jpg`. |
| `Grouping.KeysSpec` | lib/page.js:129-139 | The keys of `grouped` are distinct, and they are exactly the hostnames of the resources. |
| `Grouping.SelectIndicesPick` | lib/page.js:129-135 | `grouped[h]` picks resources out of the list one by one, each of them with hostname h. |
| `Grouping.SelectIndicesOrder` | lib/page.js:129-135 | The positions picked increase and include every position whose resource has hostname h. |
| `Grouping.SelectInOrder` | lib/page.js:129-135 | `grouped[h]` is the resource list filtered to hostname h, in document order. |
| `Grouping.SelectMembers` | lib/page.js:129-135 | A resource is in `grouped[h]` exactly when it is in the list and has hostname h. |
| `Grouping.SelectAbsent` | lib/page.js:131-133 | A hostname never added has nothing filed under it. |
| `Grouping.GroupByPartition` | lib/page.js:129-139 | The groups partition the resources. Their hostnames are distinct, every resource's hostname has a group, and each group holds exactly the resources with its hostname, in document order, and is not empty. |
| `Grouping.InsertPermutes` | lib/page.js:140-142 | Inserting a group into a sorted list neither loses nor duplicates a group. |
| `Grouping.InsertSorted` | lib/page.js:140-142 | Inserting a group into a list sorted by decreasing size keeps it sorted. |
| `Grouping.SortBySizeSpec` | lib/page.js:140-142 | The sort orders the groups by non-increasing size and is a permutation of them. |
| `Grouping.SortBySizeSorted` | lib/page.js:140-142 | The sorted groups come by non-increasing size. |
| `Grouping.SortBySizePermutes` | lib/page.js:140-142 | The sort neither loses nor adds a group. |
| `Grouping.DistinctOnce` | lib/page.js:137-139 | A group of a list with distinct hostnames occurs in it once. |
| `Grouping.PermutationDistinct` | lib/page.js:140-142 | Reordering groups with distinct hostnames keeps them distinct. |
| `Grouping.SortedGroupBy` | lib/page.js:129-142 | After the sort, the groups are still a partition of the resources, and they are ordered by size. |
| `Grouping.PermutedGroups` | lib/page.js:140-142 | After reordering, every group still holds exactly the resources of its hostname. |
| `Grouping.ResourcesByHostSpec` | lib/page.js:126-144 | `getResourcesByHost` is sorted by non-increasing size and is a permutation of the groups in first-seen order. It partitions the resources exactly, each group in document order. |
| `Grouping.IsStaticSpec` | lib/page.js:14 | A resource is a static asset exactly when its text before the first `?`, and then before the first `#`, ends in `.jpg`, `.jpeg`, `.css`, `.js`, `.gif` or `.png`, in any case. |
| `Grouping.StaticPattern` | lib/page.js:14 | Each alternative of `static_asset` is a case-insensitive suffix test for one extension, written in lower case. |
| `Grouping.KeepStaticSpec` | lib/page.js:155-158 | The filter keeps exactly the static resources, never more than it is given. |
| `Grouping.KeepStaticMembers` | lib/page.js:155-158 | A resource survives the filter exactly when it is static. |
| `Grouping.KeepStaticShrinks` | lib/page.js:155-158 | The filter only removes resources. |
| `Grouping.KeepStaticAppend` | lib/page.js:155-158 | The filter keeps relative order: filtering a concatenation concatenates the filtered parts. |
| `Grouping.StaticGroupsSpec` | lib/page.js:154-162 | Every surviving group has at least two resources, all static, and is the static part of one of the input groups. Every group with at least two static resources survives. |
| `Grouping.StaticAssetsByHostSpec` | lib/page.js:152-167 | `getStaticAssetsByHost` is sorted by non-increasing size and is a permutation of the surviving groups. Every group has two or more resources, each static and taken from the page's resources. |
| `Detection.StripWww` | lib/page.js:65 | Exactly one leading `www.` is removed, and a name without one is left as it is. |
| `Detection.IsSubdomainSpec` | lib/page.js:64-68 | A host is a subdomain exactly when, case-insensitively, it ends in the page's host less a leading `www.`. |
| `Detection.SubdomainByPrefix` | lib/page.js:64-68 | A page host with anything at all in front of it is a subdomain. There is no dot boundary. |
| `Detection.OwnHost` | lib/page.js:64-68 | The page's own host counts as one of its subdomains. |
| `Detection.ExternalsOfFooCom` | test/spy.js:203-229 | On page `foo.com`, neither `baz.com` nor `foo.turbobytes.com` is a subdomain. |
| `Detection.Candidates` | lib/page.js:200-204 | There are no more candidates than groups. |
| `Detection.CandidatesSpec` | lib/page.js:200-204 | The candidates are exactly the hostnames of groups with at least three static assets. |
| `Detection.NoCandidates` | lib/page.js:200-204 | With no group of three or more assets there is no candidate. |
| `Detection.SideMembers` | lib/page.js:207-209 | Each side of the split holds exactly the hosts on that side. |
| `Detection.SidePartition` | lib/page.js:207-209 | Together, the subdomains and the external hosts hold every candidate as often as the list does. |
| `Detection.SideSpec` | lib/page.js:237-239 | Both sides at once: a host is in a side exactly when it is a candidate on that side. |
| `Detection.FirstCdnSpec` | lib/page.js:228-233 | The CNAMEs of one host reveal the CDN of the first CNAME that the table knows. They reveal nothing exactly when the table knows none of them. |
| `Detection.FirstCdnAt` | lib/page.js:228-233 | Once a CNAME is known to the table, the CNAMEs after it do not matter. |
| `Detection.FirstVerdictNone` | lib/page.js:241-246 | When no host reveals a CDN there is no verdict. |
| `Detection.FirstVerdictSpec` | lib/page.js:241-246 | The verdict names the first host, in order, that reveals a CDN, with that CDN. It is none exactly when no host reveals one. |
| `Detection.FirstVerdictSnoc` | lib/page.js:227-234 | A later host matters only when no earlier host revealed a CDN. |
| `Detection.FirstVerdictAgree` | lib/page.js:259-266 | Two ways of revealing a CDN that agree on every host give the same verdict. |
| `Detection.StagesSpec` | lib/page.js:207-269 | Combines `Detection.StagesSound` and `Detection.StagesNone`. |
| `Detection.StagesSound` | lib/page.js:227-266 | A verdict names one of the hosts and is backed by the stage that found it. A subdomain is judged only by its CNAMEs. |
| `Detection.StagesNone` | lib/page.js:227-269 | There is no verdict exactly when no stage can see a CDN on any host. |
| `Detection.StagesSubdomainFirst` | lib/page.js:213-234 | When any subdomain's CNAMEs reveal a CDN, the verdict is a subdomain's, taken from its CNAMEs. |
| `Detection.StagesDirectBeforeCname` | lib/page.js:236-246 | When no subdomain's CNAMEs reveal a CDN but an external host's own name does, the verdict comes from an external name, and only the subdomains were queried. |
| `Detection.StagesQueries` | lib/page.js:213-258 | Every subdomain is queried. An external host is queried exactly when the first two stages found nothing. |
| `Detection.StagesAgree` | lib/page.js:215-222 | The outcome depends on the DNS only through its answers for the hosts. |
| `Detection.DetectSpec` | lib/page.js:195-272 | `getCDN`'s verdict names a candidate. A subdomain verdict comes from one of its CNAMEs; an external verdict comes from its own name or a CNAME. There is no verdict exactly when no candidate can be recognised. |
| `Detection.DetectSubdomainFirst` | lib/page.js:213-234 | A subdomain candidate whose CNAMEs reveal a CDN means the verdict is a subdomain's, from its CNAMEs. |
| `Detection.DetectDirectBeforeCname` | lib/page.js:236-246 | With no subdomain revealed, an external candidate known by name wins over every external CNAME, and no external host is queried. |
| `Detection.DetectQueries` | lib/page.js:200-258 | Only candidates are queried. Every subdomain candidate is queried, and an external candidate is queried exactly when the first two stages found nothing. |
| `Detection.DetectRecords` | lib/page.js:215-222 | The verdict depends on the DNS only through the CNAMEs of the candidate hosts. |
| `Detection.DnsErrorIsNoData` | lib/page.js:216-221 | A failed lookup and an empty answer lead to the same detection. |
| `Detection.DetectNoCandidates` | lib/page.js:200-204 | Without a host holding three static assets, nothing is queried and there is no verdict. |
| `Detection.ScenarioDns` | test/spy.js:160-169 | The resolver used in the subdomain scenario answers for `c.p`, `b.p` and `a.p`, and has no answer for the page host `p`. |
| `Detection.ScenarioDnsAnswers` | test/spy.js:160-169 | In that resolver, `c.p` has a Turbobytes CNAME. The other hosts, `p` included, have no CNAME the table knows. |
| `Detection.ScenarioHostsAreSubdomains` | test/spy.js:159-201 | All four candidate hosts of the scenario are subdomains of `p`. |
| `Detection.SubdomainCname` | lib/page.js:213-234 | When every candidate is a subdomain and exactly one has a CNAME the table knows, that one is the verdict. |
| `Detection.SubdomainScenarioFor` | test/spy.js:159-201 | For any page host `p` with candidates `p`, `a.p`, `b.p` and `c.p`, the verdict is Turbobytes on `c.p`. |
| `Detection.SubdomainCnameScenario` | test/spy.js:159-201 | Page `foo.com`: the verdict is Turbobytes on `c.foo.com`, not on `foo.com`. |
| `Detection.ExternalNamePair` | lib/page.js:236-246 | With two external candidates of which only the second is known by name, the verdict is the second. |
| `Detection.ExternalNameScenario` | test/spy.js:203-229 | Page `foo.com` with candidates `baz.com` and `foo.turbobytes.com`: whatever the DNS says, the verdict is Turbobytes on `foo.turbobytes.com`. |
| `Detection.NoCdnScenario` | test/spy.js:231-253 | Page `foo.com` with the only candidate `baz.com` and no CDN CNAME: there is no verdict. |
| `Pages.ResourcesStep` | lib/page.js:104-114 | One more `exec` result: the resources from `lastIndex` on are that value resolved, then the rest. |
| `Pages.Absolute` | lib/page.js:105-112 | The branches that make one scanned value absolute compute its resolution. |
| `Pages.ScanResources` | lib/page.js:101-114 | The `exec` loop yields the page's resource list. |
| `Pages.FileByKey` | lib/page.js:129-139 | Filing each resource into `grouped` and listing the keys yields the groups in first-seen order. |
| `Pages.FiledStep` | lib/page.js:130-134 | Filing one more resource keeps `grouped` exact: its key is added once, when new, and the resource is pushed onto that key's list in document order. |
| `Pages.GroupByOf` | lib/page.js:136-139 | Listing an exactly filed `grouped` in key order gives the groups of `GroupBy`. |
| `Pages.ListGroups` | lib/page.js:136-139 | The `for … in` loop yields one group per key, in key order, holding that key's list. |
| `Pages.KeepStaticEach` | lib/page.js:154-159 | After the `forEach`, every group keeps its hostname and holds its static resources. |
| `Pages.DropSmall` | lib/page.js:160-162 | The `filter` keeps exactly the filtered groups with more than one resource. |
| `Pages.CandidateHosts` | lib/page.js:200-204 | The `filter` and `map` yield the candidate hosts. |
| `Pages.Page.constructor` | lib/page.js:26-33 | A new page holds the DNS, the URL, its parse, the response and the body, and has no cached resources. |
| `Pages.Page.GetResources` | lib/page.js:99-118 | It returns the page's resource list and caches it. A later call returns the cached list unchanged. |
| `Pages.Page.GetResourcesByHost` | lib/page.js:126-144 | The page's resources, grouped by host and sorted (see `Grouping.ResourcesByHostSpec`). |
| `Pages.Page.GetStaticAssetsByHost` | lib/page.js:152-167 | The page's static assets by host, sorted (see `Grouping.StaticAssetsByHostSpec`). |
| `Pages.Page.GetCDNByHostname` | lib/page.js:176-187 | The nested loops with early return compute the first-match lookup (see `Cdn.LookupFirstMatch`). |
| `Pages.Page.FirstCname` | lib/page.js:228-233 | The inner loop over one host's CNAMEs yields the first CDN the table knows among them. |
| `Pages.CollectedStep` | lib/page.js:214-222 | One more lookup keeps the collection exact: a host that answered with at least one CNAME is recorded with its answer, and one without an answer leaves everything as it was. |
| `Pages.Page.CollectCnames` | lib/page.js:214-222 | The recorded hosts are exactly the hosts that answered with at least one CNAME. Each is recorded with its answer, and nothing else is recorded. The search over the recorded hosts gives the verdict over all of them. |
| `Pages.Page.SearchCnames` | lib/page.js:227-234 | The search over `cnames` yields the first host, in key order, with a CNAME the table knows. |
| `Pages.Page.DirectLookup` | lib/page.js:241-246 | The loop over the external hosts yields the first one whose own name the table knows. |
| `Pages.Page.FilterHosts` | lib/page.js:207-209 | The `isSubdomain` filter, or its negation, yields that side of the candidates. |
| `Pages.Page.GetCDN` | lib/page.js:195-272 | `getCDN` computes `Detect` of the page's host, its static assets and its DNS (see `Detection.DetectSpec`). |
| `Fetch.Success2xxSpec` | lib/spy.js:59 | `Math.floor(status / 100) === 2` holds exactly for statuses from 200 to 299. |
| `Fetch.CheckSpec` | lib/spy.js:59-62 | A reply fails exactly when it carries an error, or a response whose status is outside 2xx. |
| `Fetch.TargetSpec` | lib/spy.js:41-47 | A URL is refused exactly when the regex captures a scheme other than http or https in any case, and the error names that scheme lower-cased. An accepted URL is the input itself or the input with `http://` in front. |
| `Fetch.BareHostGetsHttp` | lib/spy.js:41-42 | A URL the regex does not match is requested as `http://` + url, which the regex then reads as `http`. |
| `Fetch.TargetIdempotent` | lib/spy.js:41-47 | Normalising a normalised URL changes nothing. |
| `Fetch.InvalidProtocolSendsNothing` | lib/spy.js:44-47 | A refused scheme sends no request and reports `Invalid protocol: <scheme>`. |
| `Fetch.AttemptsSpec` | lib/spy.js:57-71 | From attempt k with n retries left, between 1 and n + 1 requests go out, and every one before the last failed. The load succeeds with the last reply exactly when it is good. A failure uses up every retry and reports the last reply's error. |
| `Fetch.RequestBound` | lib/spy.js:62-67 | An accepted URL sends at least one request and at most one more than the retry count. |
| `Fetch.RecoversAfterFailures` | lib/spy.js:62-67 | At most n failures followed by a good reply end in that reply, after exactly that many requests. |
| `Fetch.ExhaustsRetries` | lib/spy.js:62-67 | When every allowed attempt fails, the load reports the last attempt's error after n + 1 requests. |
| `Fetch.NoRetriesOneAttempt` | lib/spy.js:24 | With `retries` unset, a failed first request ends the load. |
| `Fetch.EmptyReplySucceeds` | lib/spy.js:59-62 | A reply with neither an error nor a response counts as loaded. |
| `Fetch.FooComAccepted` | test/spy.js:14-20 | `http://foo.com` is accepted as it is. |
| `Fetch.UnloadableReported` | test/spy.js:27-38 | A transport that fails with `foo`, and no retries: one request, and the error `foo`. |
| `Fetch.ThreeFailuresRecover` | test/spy.js:65-88 | Three failures and three retries: the page loads on the fourth request. |
| `Fetch.FourFailuresFail` | test/spy.js:65-88 | Four failures and three retries: the load fails with `foo`. |
| `Fetch.RefusedMessage` | lib/spy.js:44-47 | A refused URL's message is `Invalid protocol: ` followed by the lower-cased scheme. |
| `Fetch.FtpRefused` | test/spy.js:40-48 | `ftp://foo.com` is refused with `Invalid protocol: ftp`. |
| `Fetch.StatusReported` | lib/spy.js:59-60 | A first reply with a status outside 2xx and no retries ends the load with that URL and status. |
| `Fetch.Text404` | lib/spy.js:60 | The status 404 is written `404`. |
| `Fetch.NotFoundMessage` | lib/spy.js:60 | A 404 on `http://foo.com` reads `http://foo.com responded with a 404`. |
| `Fetch.NotFoundReported` | test/spy.js:50-63 | A 404 reply on `http://foo.com` fails the load with `http://foo.com responded with a 404`. |
| `Fetch.BareFooCom` | test/spy.js:90-103 | `foo.com` is requested as `http://foo.com`. |
| `Fetch.BareFooComRequested` | lib/spy.js:41-57 | The transport is asked for the normalised URL: a good first reply for `http://foo.com` loads `foo.com` in one request. |
| `Fetch.HostlessAccepted` | lib/spy.js:9 | The colon of the `url_protocol` regex is optional, so `http//foo.com` passes as an `http` URL and is requested as it is. |
| `Fetch.Spy.constructor` | lib/spy.js:19-28 | A spy holds the retry count, the transport and the DNS it was given. |
| `Fetch.Spy.Load` | lib/spy.js:38-72 | `load` sends as many requests as `Fetch` says, each for the normalised URL, and fails with the same error. On success, the page holds the normalised URL, its parse, the spy's DNS, the CDN table, and the good reply's response and body, with no cached resources. |

## Left out

- The HTTP transport (the `request` module, the `user-agent` and `accept-encoding` headers and `timeout`) is I/O. The transport is the function `request` of the spy, read as its reply to the k-th attempt at a URL. `Spy` has no `timeout` field.
- The defaults `request || request_` and `dns || dns_` of the spy constructor are left out: a spy is always built with a transport and a DNS map.
- The `instanceof` shim that lets `Spy` be called without `new`, the `debug` logging, `getBodySize`, and the `request` field a page keeps are left out. `getHostname` is `Pages.Page.PageHost`.
- The Node `dns` module and the concurrency of `async.each` are not modelled. The DNS is a map from hostname to CNAME list; a missing entry stands for a failed lookup. The hosts are searched in candidate order, while the program fills `cnames` in the order the callbacks complete.
- `for … in` on a plain object lists integer-like keys (such as `123`) first, in numeric order. The model lists keys of `grouped` and `cnames` in insertion order. Object keys inherited from the prototype, such as `constructor`, are not modelled either.
- Node's `url.parse`, `url.format` and `path.resolve` are simplified. Only `scheme://authority/path?query#fragment` is parsed: no ports, user info, IPv6 literals, backslashes or percent-encoding. The authority is all of the text up to the first `/`, `?` or `#`, lower-cased. Text without `scheme://` parses with no protocol and no host, and is split into pathname, search and hash only. `path.resolve` takes the working directory to be `/`, so a relative page pathname resolves from the root.
- The regex engine is not modelled. The table patterns are suffix and substring literals, the resource regex is `Scan.MatchAt`, and the `url_protocol` regex is `Urls.SchemeOf`. The alternation `(?:edge(?:suite|key)|akamai(?:edge|hd)?|srip)\.net$` is written as its six suffixes, and `netdna-(?:cdn|ssl)\.com$` as its two.
- `Grouping.SortBySize`: the comparator never returns 0, so the order of groups of equal size is left to the JavaScript engine. The model is a stable insertion sort, and only the properties every such order shares are proved: sorted by non-increasing size, and a permutation.
- `Fetch.Budget`: a negative or fractional `retries` (truthy in JavaScript, so the program would keep retrying) is not modelled. The retry count is a natural number or unset.
- A page URL without a hostname, such as `http//foo.com`, which the `url_protocol` regex accepts, makes `isSubdomain` throw in the program. The model compares against the empty name instead. The resources of such a page are resolved as the program resolves them (`Resources.ResolveWithoutHost`).
- A resource without a hostname is filed under the key `"null"`, which is what the program's object key becomes.
- `Detection.OwnHost`: the comment at lib/page.js:58 speaks of a subdomain, but the regex at lib/page.js:65-67 also accepts the page's own host, and test/spy.js:159-201 relies on `foo.com` being one.
- `Detection.IsSubdomain`: the page host is matched as a literal suffix. The program escapes only `.` before building the regex (lib/page.js:66), so any other regex metacharacter in the page host keeps its meaning. Node's hostname check lets `+` through: on the page `a+b.com` the program's regex accepts `aab.com` and rejects `a+b.com`, the opposite of the model, and a host starting with `+` makes `new RegExp` throw. The simplified URL parse also lets `*`, `(`, `[` and `|` into a host.
- `Detection.IsSubdomainSpec`: states the literal-suffix reading of `Detection.IsSubdomain`, so it holds for the program only on page hosts free of regex metacharacters.
- `Detection.SubdomainByPrefix`: likewise proved for the literal-suffix reading only.
- `Detection.ScenarioDns`: the test's resolver is a DNS map, so its error for unknown hosts is an absent entry.
