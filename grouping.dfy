/**
 * `Page.prototype.getResourcesByHost` and `Page.prototype.getStaticAssetsByHost` as
 * functions of the resource list: grouping by hostname in order of first appearance,
 * the descending sort by group size, and the static-asset filter.
 */
module Grouping {

  import opened Wrappers
  import opened Strings
  import opened Regex
  import opened Urls

  /** `{ hostname: <hostname>, resources: [...] }`. */
  datatype Group = Group(hostname: string, resources: seq<string>)

  /**
   * The key a resource is filed under: `url.parse(resource).hostname`. A resource without
   * one is filed under the object key `"null"`, the string a missing hostname becomes as
   * a property name.
   */
  function HostKey(r: string): string {
    var h := Hostname(ParseUrl(r));
    if h.Some? then h.value else "null"
  }

  // ---------------------------------------------------------------------------
  // Grouping, for any way `key` of naming a resource's group
  // ---------------------------------------------------------------------------

  /** The keys of `grouped`, in the order they were first added. */
  function Keys(rs: seq<string>, key: string -> string): seq<string>
    decreases |rs|
  {
    if rs == [] then []
    else
      var ks := Keys(rs[..|rs| - 1], key);
      var h := key(rs[|rs| - 1]);
      if h in ks then ks else ks + [h]
  }

  /** `grouped[h]`: the resources filed under h, in the order they were pushed. */
  function Select(rs: seq<string>, key: string -> string, h: string): seq<string>
    decreases |rs|
  {
    if rs == [] then []
    else Select(rs[..|rs| - 1], key, h) + (if key(rs[|rs| - 1]) == h then [rs[|rs| - 1]] else [])
  }

  /** Positions in rs of the resources filed under h: the witness that `Select` keeps document order. */
  function SelectIndices(rs: seq<string>, key: string -> string, h: string): seq<nat>
    decreases |rs|
  {
    if rs == [] then []
    else SelectIndices(rs[..|rs| - 1], key, h) + (if key(rs[|rs| - 1]) == h then [|rs| - 1] else [])
  }

  /** `grouped_array` before the sort. */
  function GroupBy(rs: seq<string>, key: string -> string): seq<Group> {
    var ks := Keys(rs, key);
    seq(|ks|, i requires 0 <= i < |ks| => Group(ks[i], Select(rs, key, ks[i])))
  }

  /** `getResourcesByHost()` on the resource list rs. */
  function ResourcesByHost(rs: seq<string>): seq<Group> {
    SortBySize(GroupBy(rs, HostKey))
  }

  predicate Distinct(ks: seq<string>) {
    forall i, j :: 0 <= i < j < |ks| ==> ks[i] != ks[j]
  }

  /** No two groups share a hostname. */
  predicate DistinctHosts(gs: seq<Group>) {
    forall i, j :: 0 <= i < j < |gs| ==> gs[i].hostname != gs[j].hostname
  }

  /** The keys are distinct and are exactly the keys that occur in rs. */
  lemma {:induction false} KeysSpec(rs: seq<string>, key: string -> string)
    ensures Distinct(Keys(rs, key))
    ensures forall h :: h in Keys(rs, key) <==> exists i :: 0 <= i < |rs| && key(rs[i]) == h
    decreases |rs|
  {
    if rs != [] {
      var init := rs[..|rs| - 1];
      KeysSpec(init, key);
      forall h ensures h in Keys(rs, key) <==> exists i :: 0 <= i < |rs| && key(rs[i]) == h {
        if exists i :: 0 <= i < |init| && key(init[i]) == h {
          var i :| 0 <= i < |init| && key(init[i]) == h;
          assert rs[i] == init[i];
        }
        if exists i :: 0 <= i < |rs| && key(rs[i]) == h {
          var i :| 0 <= i < |rs| && key(rs[i]) == h;
          if i < |init| { assert rs[i] == init[i]; }
        }
      }
    }
  }

  /** The chosen positions pick out `grouped[h]` element by element, each with key h. */
  lemma {:induction false} SelectIndicesPick(rs: seq<string>, key: string -> string, h: string)
    ensures |SelectIndices(rs, key, h)| == |Select(rs, key, h)|
    ensures forall k :: 0 <= k < |SelectIndices(rs, key, h)| ==>
              SelectIndices(rs, key, h)[k] < |rs| && rs[SelectIndices(rs, key, h)[k]] == Select(rs, key, h)[k] &&
              key(rs[SelectIndices(rs, key, h)[k]]) == h
    decreases |rs|
  {
    if rs != [] {
      var init := rs[..|rs| - 1];
      SelectIndicesPick(init, key, h);
      var idx0 := SelectIndices(init, key, h);
      var idx := SelectIndices(rs, key, h);
      var sel := Select(rs, key, h);
      assert forall k :: 0 <= k < |idx0| ==> idx[k] == idx0[k] && sel[k] == Select(init, key, h)[k];
      assert forall k :: 0 <= k < |idx0| ==> rs[idx0[k]] == init[idx0[k]];
    }
  }

  /** The chosen positions increase and include every position with key h. */
  lemma {:induction false} SelectIndicesOrder(rs: seq<string>, key: string -> string, h: string)
    ensures forall k :: 0 <= k < |SelectIndices(rs, key, h)| ==> SelectIndices(rs, key, h)[k] < |rs|
    ensures forall k, l :: 0 <= k < l < |SelectIndices(rs, key, h)| ==> SelectIndices(rs, key, h)[k] < SelectIndices(rs, key, h)[l]
    ensures forall i :: 0 <= i < |rs| && key(rs[i]) == h ==> i in SelectIndices(rs, key, h)
    decreases |rs|
  {
    if rs != [] {
      var init := rs[..|rs| - 1];
      SelectIndicesOrder(init, key, h);
      var idx0 := SelectIndices(init, key, h);
      var idx := SelectIndices(rs, key, h);
      assert forall k :: 0 <= k < |idx0| ==> idx[k] == idx0[k];
      forall i | 0 <= i < |rs| && key(rs[i]) == h ensures i in idx {
        if i < |init| {
          assert rs[i] == init[i];
        } else {
          assert idx[|idx| - 1] == i;
        }
      }
    }
  }

  /**
   * `grouped[h]` is rs filtered to key h: the chosen positions increase, each carries key
   * h, and every position with key h is chosen.
   */
  lemma SelectInOrder(rs: seq<string>, key: string -> string, h: string)
    ensures var idx := SelectIndices(rs, key, h);
            && |idx| == |Select(rs, key, h)|
            && (forall k :: 0 <= k < |idx| ==> idx[k] < |rs| && rs[idx[k]] == Select(rs, key, h)[k] && key(rs[idx[k]]) == h)
            && (forall k, l :: 0 <= k < l < |idx| ==> idx[k] < idx[l])
            && (forall i :: 0 <= i < |rs| && key(rs[i]) == h ==> i in idx)
  {
    SelectIndicesPick(rs, key, h);
    SelectIndicesOrder(rs, key, h);
  }

  /** A resource is in `grouped[h]` exactly when it is in rs with key h. */
  lemma SelectMembers(rs: seq<string>, key: string -> string, h: string)
    ensures forall r :: r in Select(rs, key, h) <==> r in rs && key(r) == h
  {
    SelectInOrder(rs, key, h);
    var idx := SelectIndices(rs, key, h);
    var sel := Select(rs, key, h);
    forall r | r in rs && key(r) == h ensures r in sel {
      var i :| 0 <= i < |rs| && rs[i] == r;
      var k :| 0 <= k < |idx| && idx[k] == i;
      assert sel[k] == r;
    }
    forall r | r in sel ensures r in rs && key(r) == h {
      var k :| 0 <= k < |sel| && sel[k] == r;
      assert rs[idx[k]] == r;
    }
  }

  /** A key that was never added has nothing filed under it. */
  lemma {:induction false} SelectAbsent(rs: seq<string>, key: string -> string, h: string)
    requires h !in Keys(rs, key)
    ensures Select(rs, key, h) == []
    decreases |rs|
  {
    if rs != [] {
      var init := rs[..|rs| - 1];
      assert h !in Keys(init, key) && key(rs[|rs| - 1]) != h;
      SelectAbsent(init, key, h);
    }
  }


  /**
   * The groups partition the resources exactly: their keys are distinct, every resource's
   * key has a group, and each group holds exactly the resources with its key, in document
   * order.
   */
  lemma GroupByPartition(rs: seq<string>, key: string -> string)
    ensures var gs := GroupBy(rs, key);
            && DistinctHosts(gs)
            && (forall i :: 0 <= i < |rs| ==> exists j :: 0 <= j < |gs| && gs[j].hostname == key(rs[i]))
            && (forall j :: 0 <= j < |gs| ==> gs[j].resources == Select(rs, key, gs[j].hostname) && |gs[j].resources| > 0)
  {
    var gs := GroupBy(rs, key);
    var ks := Keys(rs, key);
    KeysSpec(rs, key);
    forall i | 0 <= i < |rs| ensures exists j :: 0 <= j < |gs| && gs[j].hostname == key(rs[i]) {
      assert key(rs[i]) in ks;
      var j :| 0 <= j < |ks| && ks[j] == key(rs[i]);
      assert gs[j].hostname == ks[j];
    }
    forall j | 0 <= j < |gs| ensures |gs[j].resources| > 0 {
      var h := ks[j];
      assert h in ks;
      var i :| 0 <= i < |rs| && key(rs[i]) == h;
      SelectMembers(rs, key, h);
      assert rs[i] in Select(rs, key, h);
    }
  }

  // ---------------------------------------------------------------------------
  // The sort by descending group size
  // ---------------------------------------------------------------------------

  /** Non-increasing group sizes. */
  predicate SortedBySize(gs: seq<Group>) {
    forall i, j :: 0 <= i < j < |gs| ==> |gs[i].resources| >= |gs[j].resources|
  }

  /** Place g before the first group that is not larger than it. */
  function Insert(g: Group, gs: seq<Group>): seq<Group>
    decreases |gs|
  {
    if gs == [] || |gs[0].resources| <= |g.resources| then [g] + gs
    else [gs[0]] + Insert(g, gs[1..])
  }

  /**
   * The `sort` with comparator `a.resources.length < b.resources.length ? 1 : -1`: larger
   * groups first. The comparator never answers 0, so the order among groups of one size is
   * not fixed by the source; this insertion sort is one of the orders it permits.
   */
  function SortBySize(gs: seq<Group>): seq<Group>
    decreases |gs|
  {
    if gs == [] then [] else Insert(gs[0], SortBySize(gs[1..]))
  }

  lemma {:induction false} InsertPermutes(g: Group, gs: seq<Group>)
    ensures multiset(Insert(g, gs)) == multiset(gs) + multiset{g}
    decreases |gs|
  {
    if !(gs == [] || |gs[0].resources| <= |g.resources|) {
      InsertPermutes(g, gs[1..]);
      assert gs == [gs[0]] + gs[1..];
    }
  }

  /** No group is larger than n. */
  predicate AtMost(gs: seq<Group>, n: nat) {
    forall i :: 0 <= i < |gs| ==> |gs[i].resources| <= n
  }

  lemma {:induction false} InsertSorted(g: Group, gs: seq<Group>)
    requires SortedBySize(gs)
    ensures SortedBySize(Insert(g, gs))
    ensures forall n: nat :: AtMost(gs, n) && |g.resources| <= n ==> AtMost(Insert(g, gs), n)
    decreases |gs|
  {
    if !(gs == [] || |gs[0].resources| <= |g.resources|) {
      var tail := gs[1..];
      assert SortedBySize(tail) by {
        forall i, j | 0 <= i < j < |tail| ensures |tail[i].resources| >= |tail[j].resources| {
          assert tail[i] == gs[i + 1] && tail[j] == gs[j + 1];
        }
      }
      InsertSorted(g, tail);
      assert AtMost(tail, |gs[0].resources|) by {
        forall i | 0 <= i < |tail| ensures |tail[i].resources| <= |gs[0].resources| { assert tail[i] == gs[i + 1]; }
      }
      var rest := Insert(g, tail);
      var r := [gs[0]] + rest;
      forall i, j | 0 <= i < j < |r| ensures |r[i].resources| >= |r[j].resources| {
        assert r[j] == rest[j - 1];
        if i > 0 { assert r[i] == rest[i - 1]; }
      }
      forall n: nat | AtMost(gs, n) && |g.resources| <= n ensures AtMost(r, n) {
        assert AtMost(tail, n) by {
          forall i | 0 <= i < |tail| ensures |tail[i].resources| <= n { assert tail[i] == gs[i + 1]; }
        }
        forall i | 0 <= i < |r| ensures |r[i].resources| <= n {
          if i > 0 { assert r[i] == rest[i - 1]; }
        }
      }
    } else {
      var r := [g] + gs;
      forall i, j | 0 <= i < j < |r| ensures |r[i].resources| >= |r[j].resources| {
        assert r[j] == gs[j - 1];
        if i > 0 { assert r[i] == gs[i - 1]; }
      }
      forall n: nat | AtMost(gs, n) && |g.resources| <= n ensures AtMost(r, n) {
        forall i | 0 <= i < |r| ensures |r[i].resources| <= n {
          if i > 0 { assert r[i] == gs[i - 1]; }
        }
      }
    }
  }

  /** The sort puts the groups in non-increasing size and is a permutation. */
  lemma SortBySizeSpec(gs: seq<Group>)
    ensures SortedBySize(SortBySize(gs))
    ensures multiset(SortBySize(gs)) == multiset(gs)
  {
    SortBySizeSorted(gs);
    SortBySizePermutes(gs);
  }

  /** The sort orders the groups by size, largest first. */
  lemma {:induction false} SortBySizeSorted(gs: seq<Group>)
    ensures SortedBySize(SortBySize(gs))
    decreases |gs|
  {
    if gs != [] {
      SortBySizeSorted(gs[1..]);
      InsertSorted(gs[0], SortBySize(gs[1..]));
    }
  }

  /** The sort neither loses nor adds a group. */
  lemma {:induction false} SortBySizePermutes(gs: seq<Group>)
    ensures multiset(SortBySize(gs)) == multiset(gs)
    decreases |gs|
  {
    if gs != [] {
      SortBySizePermutes(gs[1..]);
      InsertPermutes(gs[0], SortBySize(gs[1..]));
      assert gs == [gs[0]] + gs[1..];
    }
  }

  lemma {:induction false} DistinctOnce(gs: seq<Group>, g: Group)
    requires DistinctHosts(gs) && g in gs
    ensures multiset(gs)[g] == 1
    decreases |gs|
  {
    assert gs == [gs[0]] + gs[1..];
    var tail := gs[1..];
    assert DistinctHosts(tail) by {
      forall i, j | 0 <= i < j < |tail| ensures tail[i].hostname != tail[j].hostname {
        assert tail[i] == gs[i + 1] && tail[j] == gs[j + 1];
      }
    }
    if gs[0] == g {
      assert g !in tail by {
        forall k | 0 <= k < |tail| ensures tail[k] != g { assert tail[k] == gs[k + 1]; }
      }
    } else {
      DistinctOnce(tail, g);
    }
  }

  /** Taking two positions of a sequence that hold the same value counts that value twice. */
  lemma TwiceInMultiset(ps: seq<Group>, i: nat, j: nat)
    requires i < j < |ps| && ps[i] == ps[j]
    ensures multiset(ps)[ps[i]] >= 2
  {
    assert ps == ps[..i] + [ps[i]] + ps[i + 1..j] + [ps[j]] + ps[j + 1..];
  }

  /** A permutation of groups with distinct hostnames has distinct hostnames. */
  lemma PermutationDistinct(gs: seq<Group>, ps: seq<Group>)
    requires DistinctHosts(gs) && multiset(ps) == multiset(gs)
    ensures DistinctHosts(ps)
  {
    forall i, j | 0 <= i < j < |ps| ensures ps[i].hostname != ps[j].hostname {
      assert ps[i] in multiset(gs) && ps[j] in multiset(gs);
      var a :| 0 <= a < |gs| && gs[a] == ps[i];
      var b :| 0 <= b < |gs| && gs[b] == ps[j];
      if ps[i].hostname == ps[j].hostname {
        assert a == b;
        DistinctOnce(gs, ps[i]);
        TwiceInMultiset(ps, i, j);
      }
    }
  }

  /** The sorted groups for any key: sorted, a permutation of the groups, and still a partition. */
  lemma SortedGroupBy(rs: seq<string>, key: string -> string)
    ensures SortedBySize(SortBySize(GroupBy(rs, key)))
    ensures multiset(SortBySize(GroupBy(rs, key))) == multiset(GroupBy(rs, key))
    ensures DistinctHosts(SortBySize(GroupBy(rs, key)))
    ensures forall i :: 0 <= i < |rs| ==>
              exists j :: 0 <= j < |SortBySize(GroupBy(rs, key))| && SortBySize(GroupBy(rs, key))[j].hostname == key(rs[i])
    ensures forall j :: 0 <= j < |SortBySize(GroupBy(rs, key))| ==>
              var g := SortBySize(GroupBy(rs, key))[j];
              g.resources == Select(rs, key, g.hostname) && |g.resources| > 0
  {
    var unsorted := GroupBy(rs, key);
    var gs := SortBySize(unsorted);
    SortBySizeSpec(unsorted);
    GroupByPartition(rs, key);
    PermutationDistinct(unsorted, gs);
    forall i | 0 <= i < |rs| ensures exists j :: 0 <= j < |gs| && gs[j].hostname == key(rs[i]) {
      PermutedCover(unsorted, gs, key(rs[i]));
    }
    PermutedGroups(rs, key, unsorted, gs);
  }

  /** A permutation of groups still has a group for every host the original has one for. */
  lemma PermutedCover(gs: seq<Group>, ps: seq<Group>, h: string)
    requires multiset(ps) == multiset(gs)
    requires exists k :: 0 <= k < |gs| && gs[k].hostname == h
    ensures exists j :: 0 <= j < |ps| && ps[j].hostname == h
  {
    var k :| 0 <= k < |gs| && gs[k].hostname == h;
    assert gs[k] in multiset(ps);
    assert gs[k] in ps;
    var j :| 0 <= j < |ps| && ps[j] == gs[k];
  }

  /** A permutation of groups each holding the resources of its key still holds them. */
  lemma PermutedGroups(rs: seq<string>, key: string -> string, gs: seq<Group>, ps: seq<Group>)
    requires multiset(ps) == multiset(gs)
    requires forall j :: 0 <= j < |gs| ==> gs[j].resources == Select(rs, key, gs[j].hostname) && |gs[j].resources| > 0
    ensures forall j :: 0 <= j < |ps| ==> ps[j].resources == Select(rs, key, ps[j].hostname) && |ps[j].resources| > 0
  {
    forall j | 0 <= j < |ps| ensures ps[j].resources == Select(rs, key, ps[j].hostname) && |ps[j].resources| > 0 {
      assert ps[j] in multiset(gs);
      var k :| 0 <= k < |gs| && gs[k] == ps[j];
    }
  }

  /**
   * `getResourcesByHost()`: a partition of the resources into one group per hostname, each
   * in document order, sorted by non-increasing size.
   */
  lemma ResourcesByHostSpec(rs: seq<string>)
    ensures var gs := ResourcesByHost(rs);
            && SortedBySize(gs)
            && multiset(gs) == multiset(GroupBy(rs, HostKey))
            && DistinctHosts(gs)
            && (forall i :: 0 <= i < |rs| ==> exists j :: 0 <= j < |gs| && gs[j].hostname == HostKey(rs[i]))
            && (forall j :: 0 <= j < |gs| ==> gs[j].resources == Select(rs, HostKey, gs[j].hostname) && |gs[j].resources| > 0)
  {
    SortedGroupBy(rs, HostKey);
  }

  // ---------------------------------------------------------------------------
  // Static assets
  // ---------------------------------------------------------------------------

  /** `static_asset`, `/\.(jpe?g|css|js|gif|png)$/i`, as its six alternatives. */
  const StaticPatterns: seq<Pattern> := [
    Suffix(".jpg", true), Suffix(".jpeg", true), Suffix(".css", true),
    Suffix(".js", true), Suffix(".gif", true), Suffix(".png", true)
  ]

  const StaticExtensions: seq<string> := [".jpg", ".jpeg", ".css", ".js", ".gif", ".png"]

  /** `resource.split('?')[0].split('#')[0]`. */
  function AssetPath(r: string): string {
    Before(Before(r, '?'), '#')
  }

  predicate IsStatic(r: string) {
    AnyMatch(StaticPatterns, AssetPath(r))
  }

  /** The `filter` of one group's resources. */
  function KeepStatic(rs: seq<string>): seq<string>
    decreases |rs|
  {
    if rs == [] then []
    else (if IsStatic(rs[0]) then [rs[0]] else []) + KeepStatic(rs[1..])
  }

  /** Every group's resources filtered in place, then the groups of fewer than 2 dropped. */
  function StaticGroups(gs: seq<Group>): seq<Group>
    decreases |gs|
  {
    if gs == [] then []
    else
      var kept := KeepStatic(gs[0].resources);
      (if |kept| > 1 then [Group(gs[0].hostname, kept)] else []) + StaticGroups(gs[1..])
  }

  /** The j-th group's contribution followed by the rest. */
  lemma StaticGroupsAt(gs: seq<Group>, j: nat, g: Group)
    requires j < |gs| && g == Group(gs[j].hostname, KeepStatic(gs[j].resources))
    ensures StaticGroups(gs[j..]) == (if |g.resources| > 1 then [g] else []) + StaticGroups(gs[j + 1..])
  {
    assert gs[j..][0] == gs[j] && gs[j..][1..] == gs[j + 1..];
  }

  /** One step of the dropping loop: the j-th group is kept or dropped, and the rest is still to come. */
  lemma StaticGroupsStep(gs: seq<Group>, j: nat, g: Group, kept: seq<Group>)
    requires j < |gs| && g == Group(gs[j].hostname, KeepStatic(gs[j].resources))
    requires kept + StaticGroups(gs[j..]) == StaticGroups(gs)
    ensures (if |g.resources| > 1 then kept + [g] else kept) + StaticGroups(gs[j + 1..]) == StaticGroups(gs)
  {
    StaticGroupsAt(gs, j, g);
    var x: seq<Group> := if |g.resources| > 1 then [g] else [];
    Regroup(kept, x, StaticGroups(gs[j + 1..]), StaticGroups(gs));
    assert (if |g.resources| > 1 then kept + [g] else kept) == kept + x;
  }

  /** Moving a piece from the part still to come to the part already built. */
  lemma Regroup(kept: seq<Group>, x: seq<Group>, rest: seq<Group>, total: seq<Group>)
    requires kept + (x + rest) == total
    ensures (kept + x) + rest == total
  {
    assert kept + (x + rest) == (kept + x) + rest;
  }

  /** `getStaticAssetsByHost()` on the resource list rs. */
  function StaticAssetsByHost(rs: seq<string>): seq<Group> {
    SortBySize(StaticGroups(ResourcesByHost(rs)))
  }

  /** A resource is a static asset exactly when its path, cut at `?` and then at `#`, ends in one of the extensions in any case. */
  lemma IsStaticSpec(r: string)
    ensures IsStatic(r) <==> exists k :: 0 <= k < |StaticExtensions| && EndsWith(Lower(AssetPath(r)), StaticExtensions[k])
  {
    var p := AssetPath(r);
    AnyMatchSpec(StaticPatterns, p);
    forall k | 0 <= k < 6 ensures Test(StaticPatterns[k], p) <==> EndsWith(Lower(p), StaticExtensions[k]) {
      StaticPattern(k);
      SuffixTest(StaticExtensions[k], true, p);
    }
  }

  /** Pattern k is the case-insensitive suffix test for extension k, which is in lower case. */
  lemma StaticPattern(k: nat)
    requires k < |StaticExtensions|
    ensures k < |StaticPatterns| && StaticPatterns[k] == Suffix(StaticExtensions[k], true)
    ensures Lower(StaticExtensions[k]) == StaticExtensions[k]
  {
  }

  /** The filter keeps exactly the static resources, in their order. */
  lemma KeepStaticSpec(rs: seq<string>)
    ensures forall r :: r in KeepStatic(rs) <==> r in rs && IsStatic(r)
    ensures |KeepStatic(rs)| <= |rs|
    ensures multiset(KeepStatic(rs)) <= multiset(rs)
  {
    KeepStaticMembers(rs);
    KeepStaticShrinks(rs);
  }

  /** A resource survives the filter exactly when it is static. */
  lemma {:induction false} KeepStaticMembers(rs: seq<string>)
    ensures forall r :: r in KeepStatic(rs) <==> r in rs && IsStatic(r)
    decreases |rs|
  {
    if rs != [] {
      KeepStaticMembers(rs[1..]);
      assert rs == [rs[0]] + rs[1..];
    }
  }

  /** The filter only removes resources. */
  lemma {:induction false} KeepStaticShrinks(rs: seq<string>)
    ensures |KeepStatic(rs)| <= |rs|
    ensures multiset(KeepStatic(rs)) <= multiset(rs)
    decreases |rs|
  {
    if rs != [] {
      KeepStaticShrinks(rs[1..]);
      assert rs == [rs[0]] + rs[1..];
    }
  }

  /**
   * The filter works element by element and keeps relative order: filtering a
   * concatenation is concatenating the filtered parts.
   */
  lemma {:induction false} KeepStaticAppend(a: seq<string>, b: seq<string>)
    ensures KeepStatic(a + b) == KeepStatic(a) + KeepStatic(b)
    decreases |a|
  {
    if a != [] {
      assert (a + b)[0] == a[0] && (a + b)[1..] == a[1..] + b;
      KeepStaticAppend(a[1..], b);
    } else {
      assert a + b == b;
    }
  }

  /**
   * The surviving groups come in the same order as their groups did, keep their hostname,
   * hold the group's static resources and have at least two of them; a group with at
   * least two static resources survives.
   */
  lemma {:induction false} StaticGroupsSpec(gs: seq<Group>)
    ensures forall g :: g in StaticGroups(gs) ==> |g.resources| > 1 && forall r :: r in g.resources ==> IsStatic(r)
    ensures forall g :: g in StaticGroups(gs) ==> exists j :: 0 <= j < |gs| && g == Group(gs[j].hostname, KeepStatic(gs[j].resources))
    ensures forall j :: 0 <= j < |gs| && |KeepStatic(gs[j].resources)| > 1 ==> Group(gs[j].hostname, KeepStatic(gs[j].resources)) in StaticGroups(gs)
    decreases |gs|
  {
    if gs != [] {
      var tail := gs[1..];
      StaticGroupsSpec(tail);
      KeepStaticSpec(gs[0].resources);
      forall g | g in StaticGroups(gs) ensures exists j :: 0 <= j < |gs| && g == Group(gs[j].hostname, KeepStatic(gs[j].resources)) {
        if g !in StaticGroups(tail) {
        } else {
          var j :| 0 <= j < |tail| && g == Group(tail[j].hostname, KeepStatic(tail[j].resources));
          assert tail[j] == gs[j + 1];
        }
      }
      forall j | 0 <= j < |gs| && |KeepStatic(gs[j].resources)| > 1 ensures Group(gs[j].hostname, KeepStatic(gs[j].resources)) in StaticGroups(gs) {
        if j > 0 { assert gs[j] == tail[j - 1]; }
      }
      forall g | g in StaticGroups(gs) ensures |g.resources| > 1 && forall r :: r in g.resources ==> IsStatic(r) {
        if g !in StaticGroups(tail) {
        }
      }
    }
  }

  /**
   * `getStaticAssetsByHost()`: sorted by non-increasing size; every group has at least two
   * resources, all static, and is the static part of one of `getResourcesByHost()`'s groups.
   */
  lemma StaticAssetsByHostSpec(rs: seq<string>)
    ensures var out := StaticAssetsByHost(rs);
            && SortedBySize(out)
            && multiset(out) == multiset(StaticGroups(ResourcesByHost(rs)))
            && forall g :: g in out ==> |g.resources| > 1 && (forall r :: r in g.resources ==> IsStatic(r) && r in rs)
  {
    var byHost := ResourcesByHost(rs);
    var kept := StaticGroups(byHost);
    var out := StaticAssetsByHost(rs);
    SortBySizeSpec(kept);
    StaticGroupsSpec(byHost);
    ResourcesByHostSpec(rs);
    forall g | g in out ensures |g.resources| > 1 && (forall r :: r in g.resources ==> IsStatic(r) && r in rs) {
      assert g in multiset(out);
      assert g in kept;
      var j :| 0 <= j < |byHost| && g == Group(byHost[j].hostname, KeepStatic(byHost[j].resources));
      KeepStaticSpec(byHost[j].resources);
      SelectMembers(rs, HostKey, byHost[j].hostname);
    }
  }
}
