/** The second half of `resultNodeGrouped`: the grouped map is walked site by
    site, each site's versions in ascending order, and each entry becomes a
    page link; the number of links drawn is the "Found N results" total. The
    HTML is replaced by records of what each block shows. */
module Presentation {
  import opened Options
  import opened JavaStrings
  import opened FreenetUri
  import opened Grouping

  /** The description that, like a blank one, gives way to the short URI. */
  const NotAvailable: string := "not available"

  /** The title of an entry: its description, or the short form of its URI
      when the description is blank or reads "not available". */
  function ShowTitle(descr: string, shortUrl: string): string {
    if IsBlank(descr) || descr == NotAvailable then shortUrl else descr
  }

  /** The test the Java code makes, `descr.trim().length() == 0`, is the
      blankness ShowTitle tests. */
  lemma ShowTitleTrimmed(descr: string, shortUrl: string)
    ensures ShowTitle(descr, shortUrl) == if |Trim(descr)| == 0 || descr == NotAvailable then shortUrl else descr
  {
    TrimEmptyIffBlank(descr);
  }

  /** The links of one entry: the title linking to "/" + the URI (with the
      stored URI string as tooltip), a "[ USK ]" link when the URI is an SSK
      standing for a USK, and the short URI linking to the same place. */
  datatype Page = Page(title: string, href: string, tooltip: string, uskHref: Option<string>, shortUrl: string)

  /** The heading of a version drawn as its own block: the version suffix
      ("-" + edition for editions of 0 and above), and the number of older
      versions offered by the "older matching versions" link, when shown. */
  datatype Heading = Heading(suffix: string, olderLink: Option<nat>)

  /** One version of a site. `newest` versions are drawn outside the block of
      older versions (and in the darker colours); a version without heading
      has its pages placed straight in the enclosing block. */
  datatype VersionView = VersionView(version: Long, newest: bool, heading: Option<Heading>, pages: seq<Page>)

  /** One site: whether its block of older versions starts expanded, whether
      that block has the toggle title (more than one version), and its
      versions in the order drawn. */
  datatype SiteView = SiteView(site: string, olderShown: bool, toggle: bool, versions: seq<VersionView>)

  /** The links of a stored entry, or None where its URI fails to parse a
      second time (the entry is then not drawn and not counted). */
  function RenderPage<U>(lib: UriLib<U>, it: Item): Option<Page> {
    match lib.parse(it.uri)
    case None => None
    case Some(u) =>
      var shortUrl := lib.shortString(u);
      Some(Page(ShowTitle(it.descr, shortUrl), "/" + lib.text(u), it.uri,
                if lib.isSSKForUSK(u) then Some("/" + lib.text(lib.uskForSSK(u))) else None,
                shortUrl))
  }

  /** An entry is drawn exactly when its stored URI parses again. Its title
      follows the `trim()` test of the source, the title and the short URI
      both link to "/" + the URI, the tooltip is the stored string, and the
      "[ USK ]" link is there exactly for an SSK that stands for a USK. */
  lemma RenderPageSpec<U>(lib: UriLib<U>, it: Item)
    ensures RenderPage(lib, it).Some? <==> lib.parse(it.uri).Some?
    ensures lib.parse(it.uri).Some? ==>
      var u := lib.parse(it.uri).value;
      var p := RenderPage(lib, it).value;
      && p.title == (if |Trim(it.descr)| == 0 || it.descr == NotAvailable then lib.shortString(u) else it.descr)
      && p.href == "/" + lib.text(u)
      && p.tooltip == it.uri
      && p.shortUrl == lib.shortString(u)
      && (p.uskHref.Some? <==> lib.isSSKForUSK(u))
      && (p.uskHref.Some? ==> p.uskHref.value == "/" + lib.text(lib.uskForSSK(u)))
  {
    if lib.parse(it.uri).Some? {
      ShowTitleTrimmed(it.descr, lib.shortString(lib.parse(it.uri).value));
    }
  }

  /** The pages of the first n entries of a set. */
  function Pages<U>(lib: UriLib<U>, items: seq<Item>, n: nat): seq<Page>
    requires n <= |items|
  {
    if n == 0 then []
    else Pages(lib, items, n - 1) + match RenderPage(lib, items[n - 1]) case None => [] case Some(p) => [p]
  }

  function VersionSuffix(version: Long): string {
    if version >= 0 then "-" + NatToString(version) else ""
  }

  /** A version is a block of its own when it has more than one entry or its
      site has more than one version. */
  function VersionHeading(siteMap: map<Long, seq<Item>>, version: Long, newest: bool, showOld: bool, js: bool): Option<Heading>
    requires version in siteMap
  {
    if |siteMap[version]| > 1 || |siteMap| > 1 then
      Some(Heading(VersionSuffix(version),
                   if newest && !showOld && js && |siteMap| > 1 then Some(|siteMap| - 1) else None))
    else None
  }

  function RenderVersion<U>(lib: UriLib<U>, siteMap: map<Long, seq<Item>>, version: Long, newest: bool, showOld: bool, js: bool): VersionView
    requires version in siteMap
  {
    VersionView(version, newest, VersionHeading(siteMap, version, newest, showOld, js),
                Pages(lib, siteMap[version], |siteMap[version]|))
  }

  /** The versions of a set in ascending order, as a `TreeMap` iterates
      its keys (AscendingSpec states the order). */
  function Ascending(vs: set<Long>): (r: seq<Long>)
    ensures forall k | 0 <= k < |r| :: r[k] in vs
    decreases |vs|
  {
    if vs == {} then []
    else
      var m := Least(vs);
      [m] + Ascending(vs - {m})
  }

  /** Ascending lists every version of the set once, smallest first. */
  lemma {:induction false} AscendingSpec(vs: set<Long>)
    ensures var r := Ascending(vs);
      && |r| == |vs|
      && (forall v :: v in r <==> v in vs)
      && (forall a, b | 0 <= a < b < |r| :: r[a] < r[b])
    decreases |vs|
  {
    if vs != {} {
      var m := Least(vs);
      AscendingSpec(vs - {m});
      PrependLeast(m, vs, Ascending(vs - {m}));
    }
  }

  lemma PrependLeast(m: Long, vs: set<Long>, rest: seq<Long>)
    requires m in vs && forall v | v in vs :: m <= v
    requires forall v :: v in rest <==> v in vs - {m}
    requires forall a, b | 0 <= a < b < |rest| :: rest[a] < rest[b]
    requires |rest| == |vs - {m}|
    ensures var r := [m] + rest;
      && (forall v :: v in r <==> v in vs)
      && (forall a, b | 0 <= a < b < |r| :: r[a] < r[b])
      && |r| == |vs|
  {
    var r := [m] + rest;
    forall a, b | 0 <= a < b < |r| ensures r[a] < r[b] {
      assert r[b] == rest[b - 1] && r[b] in vs - {m};
      if a > 0 {
        assert r[a] == rest[a - 1];
      }
    }
  }

  /** The smallest version of a non-empty set. */
  function Least(vs: set<Long>): (m: Long)
    requires vs != {}
    ensures m in vs && forall v | v in vs :: m <= v
  {
    MinimumExists(vs);
    var m :| m in vs && forall v | v in vs :: m <= v;
    m
  }

  lemma MinimumExists(vs: set<Long>)
    requires vs != {}
    ensures exists m :: m in vs && forall v | v in vs :: m <= v
  {
    var m := Minimum(vs);
  }

  lemma {:induction false} Minimum(vs: set<Long>) returns (m: Long)
    requires vs != {}
    ensures m in vs && forall v | v in vs :: m <= v
    decreases |vs|
  {
    var x :| x in vs;
    var others := vs - {x};
    if others == {} {
      m := x;
      forall v | v in vs ensures x <= v {
        assert v !in others;
      }
    } else {
      var m0 := Minimum(others);
      m := if x < m0 then x else m0;
      forall v | v in vs ensures m <= v {
        if v != x {
          assert v in others;
        }
      }
    }
  }

  /** A site: one view per version, in ascending order of version; the last
      one is the newest. */
  function RenderSite<U>(lib: UriLib<U>, site: string, siteMap: map<Long, seq<Item>>, showOld: bool, js: bool): SiteView {
    var vs := Ascending(siteMap.Keys);
    SiteView(site, showOld, |siteMap| > 1,
             seq(|vs|, k requires 0 <= k < |vs| => RenderVersion(lib, siteMap, vs[k], k == |vs| - 1, showOld, js)))
  }

  function VersionPageCount(views: seq<VersionView>): nat {
    if views == [] then 0 else VersionPageCount(views[..|views| - 1]) + |views[|views| - 1].pages|
  }

  lemma VersionPageCountSnoc(views: seq<VersionView>, v: VersionView)
    ensures VersionPageCount(views + [v]) == VersionPageCount(views) + |v.pages|
  {
    assert (views + [v])[..|views|] == views;
  }

  lemma PageCountSnoc(views: seq<SiteView>, v: SiteView)
    ensures PageCount(views + [v]) == PageCount(views) + VersionPageCount(v.versions)
  {
    assert (views + [v])[..|views|] == views;
  }

  /** The number of page links drawn. */
  function PageCount(views: seq<SiteView>): nat {
    if views == [] then 0 else PageCount(views[..|views| - 1]) + VersionPageCount(views[|views| - 1].versions)
  }

  // ---------------------------------------------------------------------------
  // The rendering loops
  // ---------------------------------------------------------------------------

  /** The loop over the sites, in the order of `sites`, with the loops over
      each site's versions and each version's entries inside; `count` goes up
      once per entry drawn. */
  method RenderGroups<U>(lib: UriLib<U>, groups: Groups, sites: seq<string>, showOld: bool, js: bool)
    returns (views: seq<SiteView>, count: nat)
    requires forall k | 0 <= k < |sites| :: sites[k] in groups
    ensures |views| == |sites|
    ensures forall k | 0 <= k < |sites| :: views[k] == RenderSite(lib, sites[k], groups[sites[k]], showOld, js)
    ensures count == PageCount(views)
  {
    views, count := [], 0;
    var i := 0;
    while i < |sites|
      invariant 0 <= i <= |sites|
      invariant count == PageCount(views)
      invariant |views| == i
      invariant forall k | 0 <= k < i :: views[k] == RenderSite(lib, sites[k], groups[sites[k]], showOld, js)
    {
      var view, siteCount := DrawSite(lib, sites[i], groups[sites[i]], showOld, js);
      PageCountSnoc(views, view);
      views := views + [view];
      count := count + siteCount;
      i := i + 1;
    }
  }

  /** One site: the block of its older versions, with a toggle title when
      the site has more than one version, then the loop over its versions,
      oldest first; the last one is the newest. */
  method DrawSite<U>(lib: UriLib<U>, site: string, siteMap: map<Long, seq<Item>>, showOld: bool, js: bool)
    returns (view: SiteView, count: nat)
    ensures view == RenderSite(lib, site, siteMap, showOld, js)
    ensures count == VersionPageCount(view.versions)
  {
    var vs := Ascending(siteMap.Keys);
    var versions := [];
    count := 0;
    var j := 0;
    while j < |vs|
      invariant 0 <= j <= |vs|
      invariant count == VersionPageCount(versions)
      invariant |versions| == j
      invariant DrawnVersions(lib, siteMap, vs, showOld, js, versions)
    {
      var version, pageCount := DrawVersion(lib, siteMap, vs[j], j + 1 == |vs|, showOld, js);
      VersionPageCountSnoc(versions, version);
      DrawnVersionsSnoc(lib, siteMap, vs, showOld, js, versions, version);
      versions := versions + [version];
      count := count + pageCount;
      j := j + 1;
    }
    DrawnSite(lib, site, siteMap, showOld, js, versions);
    view := SiteView(site, showOld, |siteMap| > 1, versions);
  }

  /** `versions` are the views of the first versions of `vs`, the last of
      `vs` drawn as the newest. */
  ghost predicate DrawnVersions<U>(lib: UriLib<U>, siteMap: map<Long, seq<Item>>, vs: seq<Long>, showOld: bool, js: bool, versions: seq<VersionView>) {
    && |versions| <= |vs|
    && (forall k | 0 <= k < |vs| :: vs[k] in siteMap)
    && forall k | 0 <= k < |versions| :: versions[k] == RenderVersion(lib, siteMap, vs[k], k == |vs| - 1, showOld, js)
  }

  lemma DrawnVersionsSnoc<U>(lib: UriLib<U>, siteMap: map<Long, seq<Item>>, vs: seq<Long>, showOld: bool, js: bool,
                             versions: seq<VersionView>, version: VersionView)
    requires DrawnVersions(lib, siteMap, vs, showOld, js, versions) && |versions| < |vs|
    requires version == RenderVersion(lib, siteMap, vs[|versions|], |versions| + 1 == |vs|, showOld, js)
    ensures DrawnVersions(lib, siteMap, vs, showOld, js, versions + [version])
  {
  }

  /** Version views drawn one by one, in the order of the versions, make up
      the view of the site. */
  lemma DrawnSite<U>(lib: UriLib<U>, site: string, siteMap: map<Long, seq<Item>>, showOld: bool, js: bool, versions: seq<VersionView>)
    requires var vs := Ascending(siteMap.Keys);
      && |versions| == |vs|
      && DrawnVersions(lib, siteMap, vs, showOld, js, versions)
    ensures RenderSite(lib, site, siteMap, showOld, js) == SiteView(site, showOld, |siteMap| > 1, versions)
  {
  }

  /** One version: its heading, when it is a block of its own, then its
      entries; on its own line in the newest version's colours when `newest`. */
  method DrawVersion<U>(lib: UriLib<U>, siteMap: map<Long, seq<Item>>, version: Long, newest: bool, showOld: bool, js: bool)
    returns (view: VersionView, count: nat)
    requires version in siteMap
    ensures view == RenderVersion(lib, siteMap, version, newest, showOld, js)
    ensures count == |view.pages|
  {
    var heading := VersionHeading(siteMap, version, newest, showOld, js);
    var pages;
    pages, count := RenderEntries(lib, siteMap[version]);
    view := VersionView(version, newest, heading, pages);
  }

  /** The loop over the entries of one version: an entry whose URI fails to
      parse is left out; every other one is drawn and counted. */
  method RenderEntries<U>(lib: UriLib<U>, items: seq<Item>) returns (pages: seq<Page>, count: nat)
    ensures pages == Pages(lib, items, |items|)
    ensures count == |pages|
  {
    pages, count := [], 0;
    var k := 0;
    while k < |items|
      invariant 0 <= k <= |items|
      invariant pages == Pages(lib, items, k)
      invariant count == |pages|
    {
      var page := RenderPage(lib, items[k]);
      if page.Some? {
        pages := pages + [page.value];
        count := count + 1;
      }
      assert Pages(lib, items, k + 1) == pages;
      k := k + 1;
    }
  }

  /** resultNodeGrouped: the entries are grouped, then drawn site by site;
      `count` is the "Found N results" total. The map and the order in which
      its sites are visited are returned as ghost results. */
  method ResultNodeGrouped<U>(lib: UriLib<U>, results: seq<RawEntry>, showOld: bool, js: bool)
    returns (views: seq<SiteView>, count: nat, ghost groups: Groups, ghost sites: seq<string>)
    ensures IsGrouping(lib, results, groups) && ListsKeys(sites, groups)
    ensures |views| == |sites|
    ensures forall k | 0 <= k < |sites| :: sites[k] in groups && views[k] == RenderSite(lib, sites[k], groups[sites[k]], showOld, js)
    ensures count == PageCount(views)
    ensures count <= ValidCount(lib, results)
    ensures Reparses(lib) ==> count == ValidCount(lib, results)
  {
    var groupMap, siteOrder := GroupResults(lib, results);
    views, count := RenderGroups(lib, groupMap, siteOrder, showOld, js);
    groups, sites := groupMap, siteOrder;
    ResultCount(lib, results, groups, sites, showOld, js, views);
  }

  /** The summary line under the results, written as the code writes it,
      without spaces around the number. */
  function FoundText(count: nat): string {
    "Found" + NatToString(count) + "results"
  }

  /** The summary line holds the count in decimal between "Found" and
      "results", so the count can be read back from it. */
  lemma FoundTextCount(count: nat)
    ensures var t := FoundText(count);
      && |t| > 12 && t[..5] == "Found" && t[|t| - 7..] == "results"
      && (forall i | 5 <= i < |t| - 7 :: IsDigit(t[i]))
      && DecimalValue(t[5..|t| - 7]) == count
  {
    var t := FoundText(count);
    var digits := NatToString(count);
    NatToStringRoundTrip(count);
    assert t[5..|t| - 7] == digits;
    forall i | 5 <= i < |t| - 7 ensures IsDigit(t[i]) {
      assert t[i] == digits[i - 5];
    }
  }

  // ---------------------------------------------------------------------------
  // Versions within a site
  // ---------------------------------------------------------------------------

  /** A site's versions are drawn in ascending order, each once, with
      `Long.MIN_VALUE` (no version) first; only the last is the newest. */
  lemma SiteVersionOrder<U>(lib: UriLib<U>, site: string, siteMap: map<Long, seq<Item>>, showOld: bool, js: bool)
    ensures var vv := RenderSite(lib, site, siteMap, showOld, js).versions;
      && |vv| == |siteMap|
      && (forall v :: v in siteMap.Keys <==> exists k | 0 <= k < |vv| :: vv[k].version == v)
      && (forall a, b | 0 <= a < b < |vv| :: vv[a].version < vv[b].version)
      && (forall k | 0 <= k < |vv| :: vv[k].newest <==> k == |vv| - 1)
      && (LongMin in siteMap.Keys ==> vv[0].version == LongMin)
  {
    RenderSiteShape(lib, site, siteMap, showOld, js);
    VersionOrder(siteMap.Keys, RenderSite(lib, site, siteMap, showOld, js).versions);
  }

  lemma VersionOrder(keys: set<Long>, vv: seq<VersionView>)
    requires |vv| == |keys| && |Ascending(keys)| == |keys|
    requires forall k | 0 <= k < |vv| :: vv[k].version == Ascending(keys)[k]
    ensures forall v :: v in keys <==> exists k | 0 <= k < |vv| :: vv[k].version == v
    ensures forall a, b | 0 <= a < b < |vv| :: vv[a].version < vv[b].version
    ensures LongMin in keys ==> vv[0].version == LongMin
  {
    var vs := Ascending(keys);
    AscendingSpec(keys);
    forall v ensures v in keys <==> exists k | 0 <= k < |vv| :: vv[k].version == v {
      if v in keys {
        var k :| 0 <= k < |vs| && vs[k] == v;
        assert vv[k].version == v;
      }
    }
    if LongMin in keys {
      var k :| 0 <= k < |vs| && vs[k] == LongMin;
    }
  }

  /** A version is a block of its own, headed by its version suffix, exactly
      when it has more than one entry or its site more than one version; the
      link to the older versions sits on the newest version only, when older
      versions start hidden, scripts are on and there are older versions. */
  lemma VersionBlocks<U>(lib: UriLib<U>, site: string, siteMap: map<Long, seq<Item>>, showOld: bool, js: bool)
    ensures var view := RenderSite(lib, site, siteMap, showOld, js);
      && view.toggle == (|siteMap| > 1)
      && view.olderShown == showOld
      && forall k | 0 <= k < |view.versions| ::
           var vk := view.versions[k];
           && vk.version in siteMap
           && (vk.heading.Some? <==> |siteMap[vk.version]| > 1 || |siteMap| > 1)
           && (vk.heading.Some? ==> vk.heading.value.suffix == VersionSuffix(vk.version))
           && ((vk.heading.Some? && vk.heading.value.olderLink.Some?) <==> (vk.newest && !showOld && js && |siteMap| > 1))
           && (vk.heading.Some? && vk.heading.value.olderLink.Some? ==> vk.heading.value.olderLink.value == |siteMap| - 1)
  {
  }

  /** The suffix of a version heading is "-" and the edition in decimal for
      editions of 0 and above, and empty otherwise. */
  lemma VersionSuffixDecimal(version: Long)
    ensures var s := VersionSuffix(version);
      && (version < 0 ==> s == "")
      && (version >= 0 ==> |s| >= 2 && s[0] == '-' && (forall i | 1 <= i < |s| :: IsDigit(s[i])) && DecimalValue(s[1..]) == version)
  {
    if version >= 0 {
      NatToStringRoundTrip(version);
      var s := VersionSuffix(version);
      assert s[1..] == NatToString(version);
    }
  }

  // ---------------------------------------------------------------------------
  // Entries and the result count
  // ---------------------------------------------------------------------------

  /** Every URI parsed from a string prints as a string that parses again. */
  ghost predicate Reparses<U>(lib: UriLib<U>) {
    forall s | lib.parse(s).Some? :: lib.parse(lib.text(lib.parse(s).value)).Some?
  }

  predicate AllParse<U>(lib: UriLib<U>, items: seq<Item>) {
    forall k | 0 <= k < |items| :: lib.parse(items[k].uri).Some?
  }

  /** At most one page per entry; exactly one per entry, in order, when each
      entry's URI parses. */
  lemma {:induction false} PagesOfEntries<U>(lib: UriLib<U>, items: seq<Item>, n: nat)
    requires n <= |items|
    ensures |Pages(lib, items, n)| <= n
    ensures AllParse(lib, items) ==>
      |Pages(lib, items, n)| == n && forall k | 0 <= k < n :: Pages(lib, items, n)[k] == RenderPage(lib, items[k]).value
  {
    if n > 0 {
      PagesOfEntries(lib, items, n - 1);
    }
  }

  /** The entries stored by the grouping carry URI strings printed by the
      library, so they parse again when it Reparses. */
  lemma BucketParses<U>(lib: UriLib<U>, rs: seq<RawEntry>, slot: Slot)
    requires Reparses(lib)
    ensures AllParse(lib, Bucket(lib, rs, slot))
  {
    var b := Bucket(lib, rs, slot);
    forall k | 0 <= k < |b| ensures lib.parse(b[k].uri).Some? {
      BucketMembers(lib, rs, slot, b[k]);
      var u := lib.parse(rs[b[k].id].uri).value;
      assert b[k].uri == lib.text(u);
    }
  }

  /** The slots of one site's versions, in the order drawn. */
  function SlotsOf(groups: Groups, site: string): seq<Slot>
    requires site in groups
  {
    var vs := Ascending(groups[site].Keys);
    seq(|vs|, k requires 0 <= k < |vs| => Slot(site, vs[k]))
  }

  /** The slot lists of the sites, in the order drawn. */
  function SiteParts(groups: Groups, sites: seq<string>): seq<seq<Slot>>
    requires forall k | 0 <= k < |sites| :: sites[k] in groups
  {
    seq(|sites|, k requires 0 <= k < |sites| => SlotsOf(groups, sites[k]))
  }

  /** The first n lists, one after another. */
  function Concat<T>(parts: seq<seq<T>>, n: nat): seq<T>
    requires n <= |parts|
  {
    if n == 0 then [] else Concat(parts, n - 1) + parts[n - 1]
  }

  /** The weights of the elements of xs, added up. */
  function Total<T>(w: T -> nat, xs: seq<T>): nat {
    if xs == [] then 0 else Total(w, xs[..|xs| - 1]) + w(xs[|xs| - 1])
  }

  /** The weight of a slot: the number of entries in its bucket. */
  function BucketSize<U>(lib: UriLib<U>, rs: seq<RawEntry>): Slot -> nat {
    slot => |Bucket(lib, rs, slot)|
  }

  lemma {:induction false} SumBucketsTotal<U>(lib: UriLib<U>, rs: seq<RawEntry>, slots: seq<Slot>)
    ensures SumBuckets(lib, rs, slots) == Total(BucketSize(lib, rs), slots)
  {
    if slots != [] {
      SumBucketsTotal(lib, rs, slots[..|slots| - 1]);
    }
  }

  lemma {:induction false} TotalAppend<T>(w: T -> nat, a: seq<T>, b: seq<T>)
    ensures Total(w, a + b) == Total(w, a) + Total(w, b)
    decreases |b|
  {
    if b != [] {
      var front := b[..|b| - 1];
      TotalAppend(w, a, front);
      assert (a + b)[..|a + b| - 1] == a + front;
      assert (a + b)[|a + b| - 1] == b[|b| - 1];
    } else {
      assert a + b == a;
    }
  }

  /** The view of a site holds one version view per version, in ascending
      order of version. */
  lemma RenderSiteShape<U>(lib: UriLib<U>, site: string, siteMap: map<Long, seq<Item>>, showOld: bool, js: bool)
    ensures var vs := Ascending(siteMap.Keys); var vv := RenderSite(lib, site, siteMap, showOld, js).versions;
      && |vv| == |vs| == |siteMap|
      && (forall k | 0 <= k < |vs| :: vs[k] in siteMap && vv[k] == RenderVersion(lib, siteMap, vs[k], k == |vs| - 1, showOld, js))
      && (forall k | 0 <= k < |vs| :: vv[k].version == vs[k] && (vv[k].newest <==> k == |vs| - 1))
  {
    AscendingSpec(siteMap.Keys);
    assert |siteMap.Keys| == |siteMap|;
  }

  /** A version draws one page per entry of its bucket, or fewer where a
      URI does not parse again. */
  lemma VersionCount<U>(lib: UriLib<U>, rs: seq<RawEntry>, groups: Groups, site: string, version: Long, pages: seq<Page>)
    requires HoldsBuckets(lib, rs, groups) && site in groups && version in groups[site]
    requires pages == Pages(lib, groups[site][version], |groups[site][version]|)
    ensures |pages| <= |Bucket(lib, rs, Slot(site, version))|
    ensures Reparses(lib) ==> |pages| == |Bucket(lib, rs, Slot(site, version))|
  {
    var items := groups[site][version];
    assert items == Bucket(lib, rs, Slot(site, version));
    PagesOfEntries(lib, items, |items|);
    if Reparses(lib) {
      BucketParses(lib, rs, Slot(site, version));
    }
  }

  /** The first n versions of a site draw as many pages as their slots
      weigh, or fewer. */
  lemma {:induction false} VersionsCount<T>(w: T -> nat, ss: seq<T>, vv: seq<VersionView>, n: nat, exact: bool)
    requires n <= |ss| == |vv|
    requires forall k | 0 <= k < |ss| :: |vv[k].pages| <= w(ss[k])
    requires exact ==> forall k | 0 <= k < |ss| :: |vv[k].pages| == w(ss[k])
    ensures VersionPageCount(vv[..n]) <= Total(w, ss[..n])
    ensures exact ==> VersionPageCount(vv[..n]) == Total(w, ss[..n])
  {
    if n > 0 {
      VersionsCount(w, ss, vv, n - 1, exact);
      assert vv[..n][..n - 1] == vv[..n - 1] && vv[..n][n - 1] == vv[n - 1];
      assert ss[..n][..n - 1] == ss[..n - 1] && ss[..n][n - 1] == ss[n - 1];
    }
  }

  /** Within a site, the pages drawn number the entries in the buckets of
      its versions, or fewer where a URI does not parse again. */
  lemma SitePageCount<U>(lib: UriLib<U>, rs: seq<RawEntry>, groups: Groups, site: string, showOld: bool, js: bool)
    requires HoldsBuckets(lib, rs, groups) && site in groups
    ensures VersionPageCount(RenderSite(lib, site, groups[site], showOld, js).versions) <= Total(BucketSize(lib, rs), SlotsOf(groups, site))
    ensures Reparses(lib) ==>
      VersionPageCount(RenderSite(lib, site, groups[site], showOld, js).versions) == Total(BucketSize(lib, rs), SlotsOf(groups, site))
  {
    var siteMap := groups[site];
    var vs := Ascending(siteMap.Keys);
    var vv := RenderSite(lib, site, siteMap, showOld, js).versions;
    var ss := SlotsOf(groups, site);
    var w := BucketSize(lib, rs);
    RenderSiteShape(lib, site, siteMap, showOld, js);
    forall k | 0 <= k < |vs|
      ensures |vv[k].pages| <= w(ss[k])
      ensures Reparses(lib) ==> |vv[k].pages| == w(ss[k])
    {
      VersionCount(lib, rs, groups, site, vs[k], vv[k].pages);
      assert w(ss[k]) == |Bucket(lib, rs, Slot(site, vs[k]))|;
    }
    VersionsCount(w, ss, vv, |vs|, Reparses(lib));
    assert vv[..|vs|] == vv;
    assert ss[..|vs|] == ss;
  }

  /** The weights of the first n lists, added up. */
  function PartsSum<T>(w: T -> nat, parts: seq<seq<T>>, n: nat): nat
    requires n <= |parts|
  {
    if n == 0 then 0 else PartsSum(w, parts, n - 1) + Total(w, parts[n - 1])
  }

  /** Over the first n sites, the pages drawn number the weights of their
      slots, or fewer. */
  lemma {:induction false} SitesCount<T>(w: T -> nat, views: seq<SiteView>, parts: seq<seq<T>>, n: nat, exact: bool)
    requires n <= |parts| == |views|
    requires forall k | 0 <= k < |parts| :: VersionPageCount(views[k].versions) <= Total(w, parts[k])
    requires exact ==> forall k | 0 <= k < |parts| :: VersionPageCount(views[k].versions) == Total(w, parts[k])
    ensures PageCount(views[..n]) <= PartsSum(w, parts, n)
    ensures exact ==> PageCount(views[..n]) == PartsSum(w, parts, n)
  {
    if n > 0 {
      SitesCount(w, views, parts, n - 1, exact);
      assert views[..n][..n - 1] == views[..n - 1] && views[..n][n - 1] == views[n - 1];
    }
  }

  lemma {:induction false} TotalConcat<T>(w: T -> nat, parts: seq<seq<T>>, n: nat)
    requires n <= |parts|
    ensures Total(w, Concat(parts, n)) == PartsSum(w, parts, n)
  {
    if n > 0 {
      TotalConcat(w, parts, n - 1);
      TotalAppend(w, Concat(parts, n - 1), parts[n - 1]);
    }
  }

  lemma {:induction false} ConcatMember<T>(parts: seq<seq<T>>, n: nat, slot: T)
    requires n <= |parts|
    ensures slot in Concat(parts, n) <==> exists k | 0 <= k < n :: slot in parts[k]
  {
    if n > 0 {
      ConcatMember(parts, n - 1, slot);
    }
  }

  lemma DistinctAppend<T>(a: seq<T>, b: seq<T>)
    requires Distinct(a) && Distinct(b) && forall x | x in a :: x !in b
    ensures Distinct(a + b)
  {
    forall i, j | 0 <= i < j < |a + b| ensures (a + b)[i] != (a + b)[j] {
      if i < |a| && j >= |a| {
        assert (a + b)[i] in a && (a + b)[j] == b[j - |a|];
      }
    }
  }

  lemma {:induction false} ConcatDistinct<T>(parts: seq<seq<T>>, n: nat)
    requires n <= |parts|
    requires forall k | 0 <= k < |parts| :: Distinct(parts[k])
    requires forall a, b, slot | 0 <= a < b < |parts| && slot in parts[a] :: slot !in parts[b]
    ensures Distinct(Concat(parts, n))
  {
    if n > 0 {
      ConcatDistinct(parts, n - 1);
      var front, last := Concat(parts, n - 1), parts[n - 1];
      forall x | x in front ensures x !in last {
        ConcatMember(parts, n - 1, x);
      }
      DistinctAppend(front, last);
    }
  }

  /** A slot is among a site's slots exactly when it names that site and
      one of its versions; each does so once. */
  lemma SlotsOfSpec(groups: Groups, site: string)
    requires site in groups
    ensures Distinct(SlotsOf(groups, site))
    ensures forall slot :: slot in SlotsOf(groups, site) <==> slot.site == site && slot.version in groups[site]
  {
    var vs := Ascending(groups[site].Keys);
    var ss := SlotsOf(groups, site);
    AscendingSpec(groups[site].Keys);
    forall i, j | 0 <= i < j < |ss| ensures ss[i] != ss[j] {
      assert ss[i].version == vs[i] && ss[j].version == vs[j];
    }
    forall slot ensures slot in ss <==> slot.site == site && slot.version in groups[site] {
      if slot in ss {
        var k :| 0 <= k < |ss| && ss[k] == slot;
        assert slot.version == vs[k];
      }
      if slot.site == site && slot.version in groups[site] {
        var k :| 0 <= k < |vs| && vs[k] == slot.version;
        assert ss[k] == slot;
      }
    }
  }

  /** The sites' slot lists together name each slot once. */
  lemma PartsDistinct(groups: Groups, sites: seq<string>)
    requires Distinct(sites) && forall k | 0 <= k < |sites| :: sites[k] in groups
    ensures Distinct(Concat(SiteParts(groups, sites), |sites|))
  {
    var parts := SiteParts(groups, sites);
    forall k | 0 <= k < |parts| ensures Distinct(parts[k]) {
      SlotsOfSpec(groups, sites[k]);
    }
    forall a, b, slot | 0 <= a < b < |parts| && slot in parts[a] ensures slot !in parts[b] {
      SlotsOfSpec(groups, sites[a]);
      SlotsOfSpec(groups, sites[b]);
    }
    ConcatDistinct(parts, |parts|);
  }

  /** The sites' slot lists together name the slot of every non-empty bucket. */
  lemma PartsCover<U>(lib: UriLib<U>, rs: seq<RawEntry>, groups: Groups, sites: seq<string>)
    requires CoversBuckets(lib, rs, groups) && ListsKeys(sites, groups)
    ensures forall k | 0 <= k < |sites| :: sites[k] in groups
    ensures forall slot: Slot | Bucket(lib, rs, slot) != [] :: slot in Concat(SiteParts(groups, sites), |sites|)
  {
    var parts := SiteParts(groups, sites);
    forall slot: Slot | Bucket(lib, rs, slot) != [] ensures slot in Concat(parts, |sites|) {
      assert slot.site in sites;
      var k :| 0 <= k < |sites| && sites[k] == slot.site;
      SlotsOfSpec(groups, sites[k]);
      assert slot in parts[k];
      ConcatMember(parts, |sites|, slot);
    }
  }

  /** Each site draws as many pages as its slots' buckets hold entries, or fewer. */
  lemma SiteCounts<U>(lib: UriLib<U>, rs: seq<RawEntry>, groups: Groups, sites: seq<string>, showOld: bool, js: bool, views: seq<SiteView>)
    requires HoldsBuckets(lib, rs, groups) && |views| == |sites|
    requires forall k | 0 <= k < |sites| :: sites[k] in groups && views[k] == RenderSite(lib, sites[k], groups[sites[k]], showOld, js)
    ensures forall k | 0 <= k < |sites| :: VersionPageCount(views[k].versions) <= Total(BucketSize(lib, rs), SiteParts(groups, sites)[k])
    ensures Reparses(lib) ==>
      forall k | 0 <= k < |sites| :: VersionPageCount(views[k].versions) == Total(BucketSize(lib, rs), SiteParts(groups, sites)[k])
  {
    forall k | 0 <= k < |sites|
      ensures VersionPageCount(views[k].versions) <= Total(BucketSize(lib, rs), SiteParts(groups, sites)[k])
      ensures Reparses(lib) ==> VersionPageCount(views[k].versions) == Total(BucketSize(lib, rs), SiteParts(groups, sites)[k])
    {
      SitePageCount(lib, rs, groups, sites[k], showOld, js);
    }
  }

  /** The "Found N results" total is at most the number of entries whose URI
      parses, and equal to it when every printed URI parses again. */
  lemma ResultCount<U>(lib: UriLib<U>, rs: seq<RawEntry>, groups: Groups, sites: seq<string>, showOld: bool, js: bool, views: seq<SiteView>)
    requires IsGrouping(lib, rs, groups) && ListsKeys(sites, groups) && |views| == |sites|
    requires forall k | 0 <= k < |sites| :: sites[k] in groups && views[k] == RenderSite(lib, sites[k], groups[sites[k]], showOld, js)
    ensures PageCount(views) <= ValidCount(lib, rs)
    ensures Reparses(lib) ==> PageCount(views) == ValidCount(lib, rs)
  {
    SiteCounts(lib, rs, groups, sites, showOld, js, views);
    PartsCount(lib, rs, groups, sites, views, Reparses(lib));
  }

  /** Summed over the sites, page counts bounded by (or equal to) each site's
      bucket sizes are bounded by (or equal to) the number of entries that parse. */
  lemma PartsCount<U>(lib: UriLib<U>, rs: seq<RawEntry>, groups: Groups, sites: seq<string>, views: seq<SiteView>, exact: bool)
    requires CoversBuckets(lib, rs, groups) && ListsKeys(sites, groups) && |views| == |sites|
    requires forall k | 0 <= k < |sites| :: sites[k] in groups
    requires forall k | 0 <= k < |sites| :: VersionPageCount(views[k].versions) <= Total(BucketSize(lib, rs), SiteParts(groups, sites)[k])
    requires exact ==>
      forall k | 0 <= k < |sites| :: VersionPageCount(views[k].versions) == Total(BucketSize(lib, rs), SiteParts(groups, sites)[k])
    ensures PageCount(views) <= ValidCount(lib, rs)
    ensures exact ==> PageCount(views) == ValidCount(lib, rs)
  {
    var parts := SiteParts(groups, sites);
    var w := BucketSize(lib, rs);
    SitesCount(w, views, parts, |sites|, exact);
    TotalConcat(w, parts, |sites|);
    SumBucketsTotal(lib, rs, Concat(parts, |sites|));
    assert views[..|sites|] == views;
    PartsDistinct(groups, sites);
    PartsCover(lib, rs, groups, sites);
    PartitionCount(lib, rs, Concat(parts, |sites|));
  }
}
