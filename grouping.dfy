/** The first loop of `resultNodeGrouped`: the result entries of a finished
    search are put into a two-level map, site key -> (version -> entries). */
module Grouping {
  import opened Options
  import opened FreenetUri

  /** One element of the search's result collection (a `URIWrapper`): its
      URI string and its description. */
  datatype RawEntry = RawEntry(uri: string, descr: string)

  /** An entry once grouped. `URIWrapper` equality is taken to be identity,
      so entries are told apart by position: `id` is the entry's position in
      the result collection. `uri` is the normalised URI string
      that the loop writes back into the entry. */
  datatype Item = Item(id: nat, uri: string, descr: string)

  /** A place in the two-level map. */
  datatype Slot = Slot(site: string, version: Long)

  datatype Placed = Placed(slot: Slot, item: Item)

  /** `HashMap<String, SortedMap<Long, Set<URIWrapper>>>`; each set is kept
      in arrival order. */
  type Groups = map<string, map<Long, seq<Item>>>

  /** Where the entry at position `id` goes, or None when its URI does not
      parse. An SSK that stands for a USK is grouped under its USK form with
      the USK's edition as version; any other URI has version `Long.MIN_VALUE`.
      The stored entry carries the string form of the URI as parsed. */
  function Classify<U>(lib: UriLib<U>, e: RawEntry, id: nat): (p: Option<Placed>)
    ensures p.None? <==> lib.parse(e.uri).None?
    ensures p.Some? ==>
      var u := lib.parse(e.uri).value;
      && p.value.item == Item(id, lib.text(u), e.descr)
      && (lib.isSSKForUSK(u) ==> p.value.slot == Slot(SiteBase(lib, lib.uskForSSK(u)), lib.edition(lib.uskForSSK(u))))
      && (!lib.isSSKForUSK(u) ==> p.value.slot == Slot(SiteBase(lib, u), LongMin))
  {
    match lib.parse(e.uri)
    case None => None
    case Some(u) =>
      var key := if lib.isSSKForUSK(u) then lib.uskForSSK(u) else u;
      var version := if lib.isSSKForUSK(u) then lib.edition(key) else LongMin;
      Some(Placed(Slot(SiteBase(lib, key), version), Item(id, lib.text(u), e.descr)))
  }

  /** What the entry at position `id` adds to the set at `slot`. */
  function Contribution<U>(lib: UriLib<U>, e: RawEntry, id: nat, slot: Slot): seq<Item> {
    match Classify(lib, e, id)
    case None => []
    case Some(p) => if p.slot == slot then [p.item] else []
  }

  /** The entries of `rs` that belong at `slot`, in arrival order. */
  function Bucket<U>(lib: UriLib<U>, rs: seq<RawEntry>, slot: Slot): seq<Item>
    decreases |rs|
  {
    if rs == [] then []
    else Bucket(lib, rs[..|rs| - 1], slot) + Contribution(lib, rs[|rs| - 1], |rs| - 1, slot)
  }

  /** `groups` is the map the loop builds from `rs`: no site is left
      without a version, each slot holds the non-empty bucket of `rs` for it,
      and every non-empty bucket has its slot. */
  ghost predicate IsGrouping<U>(lib: UriLib<U>, rs: seq<RawEntry>, groups: Groups) {
    SitesOccupied(groups) && HoldsBuckets(lib, rs, groups) && CoversBuckets(lib, rs, groups)
  }

  predicate SitesOccupied(groups: Groups) {
    forall site | site in groups :: |groups[site]| > 0
  }

  ghost predicate HoldsBuckets<U>(lib: UriLib<U>, rs: seq<RawEntry>, groups: Groups) {
    forall site, version | site in groups && version in groups[site] ::
      groups[site][version] == Bucket(lib, rs, Slot(site, version)) && groups[site][version] != []
  }

  ghost predicate CoversBuckets<U>(lib: UriLib<U>, rs: seq<RawEntry>, groups: Groups) {
    forall slot: Slot | Bucket(lib, rs, slot) != [] :: slot.site in groups && slot.version in groups[slot.site]
  }

  predicate Distinct<T(==)>(s: seq<T>) {
    forall i, j | 0 <= i < j < |s| :: s[i] != s[j]
  }

  /** `sites` lists the site keys of `groups`, each once: the fixed order in
      which the model visits the `HashMap`'s keys. */
  predicate ListsKeys(sites: seq<string>, groups: Groups) {
    Distinct(sites) && (forall site | site in sites :: site in groups) && (forall site | site in groups :: site in sites)
  }

  lemma BucketStep<U>(lib: UriLib<U>, rs: seq<RawEntry>, i: nat, slot: Slot)
    requires i < |rs|
    ensures Bucket(lib, rs[..i + 1], slot) == Bucket(lib, rs[..i], slot) + Contribution(lib, rs[i], i, slot)
  {
    assert rs[..i + 1][..i] == rs[..i];
  }

  /** A map with `item` added to the set at `slot`, the site's map and the
      version's set being created when missing. */
  function Add(groups: Groups, slot: Slot, item: Item): Groups {
    var siteMap := if slot.site in groups then groups[slot.site] else map[];
    var bucket := if slot.version in siteMap then siteMap[slot.version] else [];
    groups[slot.site := siteMap[slot.version := bucket + [item]]]
  }

  lemma AddPreservesGrouping<U>(lib: UriLib<U>, rs: seq<RawEntry>, i: nat, groups: Groups)
    requires i < |rs| && IsGrouping(lib, rs[..i], groups) && Classify(lib, rs[i], i).Some?
    ensures var p := Classify(lib, rs[i], i).value;
      IsGrouping(lib, rs[..i + 1], Add(groups, p.slot, p.item))
  {
    var p := Classify(lib, rs[i], i).value;
    var g := Add(groups, p.slot, p.item);
    forall slot ensures Bucket(lib, rs[..i + 1], slot) == Bucket(lib, rs[..i], slot) + Contribution(lib, rs[i], i, slot) {
      BucketStep(lib, rs, i, slot);
    }
    AddHolds(lib, rs, i, groups, p, g);
    AddCovers(lib, rs, i, groups, p, g);
  }

  lemma AddHolds<U>(lib: UriLib<U>, rs: seq<RawEntry>, i: nat, groups: Groups, p: Placed, g: Groups)
    requires i < |rs| && HoldsBuckets(lib, rs[..i], groups) && CoversBuckets(lib, rs[..i], groups)
    requires Classify(lib, rs[i], i) == Some(p)
    requires g == Add(groups, p.slot, p.item)
    requires forall slot :: Bucket(lib, rs[..i + 1], slot) == Bucket(lib, rs[..i], slot) + Contribution(lib, rs[i], i, slot)
    ensures HoldsBuckets(lib, rs[..i + 1], g)
  {
    forall site, version | site in g && version in g[site]
      ensures g[site][version] == Bucket(lib, rs[..i + 1], Slot(site, version)) && g[site][version] != []
    {
      var slot := Slot(site, version);
      assert Bucket(lib, rs[..i + 1], slot) == Bucket(lib, rs[..i], slot) + Contribution(lib, rs[i], i, slot);
      if slot != p.slot {
        assert Contribution(lib, rs[i], i, slot) == [];
        assert g[site][version] == groups[site][version];
      } else {
        assert Contribution(lib, rs[i], i, slot) == [p.item];
        if !(site in groups && version in groups[site]) {
          assert Bucket(lib, rs[..i], slot) == [];
        }
      }
    }
  }

  lemma AddCovers<U>(lib: UriLib<U>, rs: seq<RawEntry>, i: nat, groups: Groups, p: Placed, g: Groups)
    requires i < |rs| && CoversBuckets(lib, rs[..i], groups) && Classify(lib, rs[i], i) == Some(p)
    requires g == Add(groups, p.slot, p.item)
    requires forall slot :: Bucket(lib, rs[..i + 1], slot) == Bucket(lib, rs[..i], slot) + Contribution(lib, rs[i], i, slot)
    ensures CoversBuckets(lib, rs[..i + 1], g)
  {
    forall slot: Slot | Bucket(lib, rs[..i + 1], slot) != []
      ensures slot.site in g && slot.version in g[slot.site]
    {
      if slot != p.slot {
        assert Contribution(lib, rs[i], i, slot) == [];
      }
    }
  }

  lemma SkipPreservesGrouping<U>(lib: UriLib<U>, rs: seq<RawEntry>, i: nat, groups: Groups)
    requires i < |rs| && IsGrouping(lib, rs[..i], groups) && Classify(lib, rs[i], i).None?
    ensures IsGrouping(lib, rs[..i + 1], groups)
  {
    forall slot ensures Bucket(lib, rs[..i + 1], slot) == Bucket(lib, rs[..i], slot) {
      BucketStep(lib, rs, i, slot);
    }
    SameBucketsGrouping(lib, rs[..i], rs[..i + 1], groups);
  }

  /** Whether a map groups a collection depends only on the collection's buckets. */
  lemma SameBucketsGrouping<U>(lib: UriLib<U>, rs: seq<RawEntry>, rs': seq<RawEntry>, groups: Groups)
    requires forall slot :: Bucket(lib, rs', slot) == Bucket(lib, rs, slot)
    requires IsGrouping(lib, rs, groups)
    ensures IsGrouping(lib, rs', groups)
  {
  }

  /** One insertion of the loop: the site's map is created, and the site
      listed, when the site is new; the version's set is created when the
      version is new; then the entry is added to that set. */
  method AddEntry(groups: Groups, sites: seq<string>, site: string, version: Long, stored: Item)
    returns (groups': Groups, sites': seq<string>)
    requires ListsKeys(sites, groups)
    ensures groups' == Add(groups, Slot(site, version), stored)
    ensures ListsKeys(sites', groups')
  {
    groups', sites' := groups, sites;
    if site !in groups' {
      groups' := groups'[site := map[]];
      sites' := sites' + [site];
      assert forall k | 0 <= k < |sites| :: sites'[k] == sites[k];
    }
    var siteMap: map<Long, seq<Item>> := groups'[site];
    if version !in siteMap {
      siteMap := siteMap[version := []];
    }
    ghost var siteMap0: map<Long, seq<Item>> := if site in groups then groups[site] else map[];
    ghost var bucket0 := if version in siteMap0 then siteMap0[version] else [];
    assert siteMap[version] == bucket0;
    assert siteMap[version := siteMap[version] + [stored]] == siteMap0[version := bucket0 + [stored]];
    groups' := groups'[site := siteMap[version := siteMap[version] + [stored]]];
  }

  /** One round of the loop, for the entry at position `i`: an entry whose
      URI does not parse is skipped; any other entry is stored, with its
      normalised URI string, in the set of its site and version. */
  method PlaceEntry<U>(lib: UriLib<U>, results: seq<RawEntry>, i: nat, groups: Groups, sites: seq<string>)
    returns (groups': Groups, sites': seq<string>)
    requires i < |results| && IsGrouping(lib, results[..i], groups) && ListsKeys(sites, groups)
    ensures IsGrouping(lib, results[..i + 1], groups') && ListsKeys(sites', groups')
    ensures Classify(lib, results[i], i).None? ==> groups' == groups && sites' == sites
  {
    var o := results[i];
    var parsed := lib.parse(o.uri);
    if parsed.None? {
      SkipPreservesGrouping(lib, results, i, groups);
      return groups, sites;
    }
    var uri := parsed.value;
    var stored := Item(i, lib.text(uri), o.descr);
    var version: Long := LongMin;
    if lib.isSSKForUSK(uri) {
      uri := lib.uskForSSK(uri);
      version := lib.edition(uri);
    }
    var site := SiteBase(lib, uri);
    assert Classify(lib, o, i) == Some(Placed(Slot(site, version), stored));
    AddPreservesGrouping(lib, results, i, groups);
    groups', sites' := AddEntry(groups, sites, site, version, stored);
  }

  /** The grouping loop over the result collection. */
  method GroupResults<U>(lib: UriLib<U>, results: seq<RawEntry>) returns (groups: Groups, sites: seq<string>)
    ensures IsGrouping(lib, results, groups)
    ensures ListsKeys(sites, groups)
  {
    groups, sites := map[], [];
    var i := 0;
    while i < |results|
      invariant 0 <= i <= |results|
      invariant IsGrouping(lib, results[..i], groups)
      invariant ListsKeys(sites, groups)
    {
      groups, sites := PlaceEntry(lib, results, i, groups, sites);
      i := i + 1;
    }
    assert results[..|results|] == results;
  }

  // ---------------------------------------------------------------------------
  // What the grouping promises
  // ---------------------------------------------------------------------------

  /** A bucket holds exactly the entries classified into its slot. */
  lemma {:induction false} BucketMembers<U>(lib: UriLib<U>, rs: seq<RawEntry>, slot: Slot, it: Item)
    ensures it in Bucket(lib, rs, slot) <==>
      it.id < |rs| && Classify(lib, rs[it.id], it.id) == Some(Placed(slot, it))
    decreases |rs|
  {
    if rs != [] {
      var n := |rs| - 1;
      BucketMembers(lib, rs[..n], slot, it);
      if it.id < n {
        assert rs[..n][it.id] == rs[it.id];
      }
      if it in Contribution(lib, rs[n], n, slot) {
        assert it.id == n;
      }
    }
  }

  /** An entry whose URI parses is in exactly one set of the map: the one of
      its site and version. */
  lemma EntryInExactlyOneSet<U>(lib: UriLib<U>, rs: seq<RawEntry>, groups: Groups, i: nat)
    requires IsGrouping(lib, rs, groups) && i < |rs| && Classify(lib, rs[i], i).Some?
    ensures var p := Classify(lib, rs[i], i).value;
      && p.slot.site in groups && p.slot.version in groups[p.slot.site]
      && p.item in groups[p.slot.site][p.slot.version]
      && forall site, version, it | site in groups && version in groups[site] && it in groups[site][version] && it.id == i ::
           Slot(site, version) == p.slot && it == p.item
  {
    var p := Classify(lib, rs[i], i).value;
    BucketMembers(lib, rs, p.slot, p.item);
    forall site, version, it | site in groups && version in groups[site] && it in groups[site][version] && it.id == i
      ensures Slot(site, version) == p.slot && it == p.item
    {
      BucketMembers(lib, rs, Slot(site, version), it);
    }
  }

  /** An entry whose URI does not parse is in no set; the other entries are
      grouped all the same (by EntryInExactlyOneSet, whatever the other
      entries are). */
  lemma MalformedEntrySkipped<U>(lib: UriLib<U>, rs: seq<RawEntry>, groups: Groups, i: nat)
    requires IsGrouping(lib, rs, groups) && i < |rs| && lib.parse(rs[i].uri).None?
    ensures forall site, version, it | site in groups && version in groups[site] && it in groups[site][version] ::
      it.id != i
  {
    forall site, version, it | site in groups && version in groups[site] && it in groups[site][version]
      ensures it.id != i
    {
      BucketMembers(lib, rs, Slot(site, version), it);
    }
  }

  /** The map is determined by the result collection: two maps that both
      group `rs` are equal. */
  lemma GroupingUnique<U>(lib: UriLib<U>, rs: seq<RawEntry>, g1: Groups, g2: Groups)
    requires IsGrouping(lib, rs, g1) && IsGrouping(lib, rs, g2)
    ensures g1 == g2
  {
    SameSites(lib, rs, g1, g2);
    forall site | site in g1 ensures g1[site] == g2[site] {
      SiteMapsAgree(lib, rs, g1, g2, site);
    }
  }

  lemma SameSites<U>(lib: UriLib<U>, rs: seq<RawEntry>, g1: Groups, g2: Groups)
    requires IsGrouping(lib, rs, g1) && IsGrouping(lib, rs, g2)
    ensures g1.Keys == g2.Keys
  {
    forall site | site in g1 ensures site in g2 {
      SiteIn(lib, rs, g1, g2, site);
    }
    forall site | site in g2 ensures site in g1 {
      SiteIn(lib, rs, g2, g1, site);
    }
  }

  lemma SiteIn<U>(lib: UriLib<U>, rs: seq<RawEntry>, g1: Groups, g2: Groups, site: string)
    requires SitesOccupied(g1) && HoldsBuckets(lib, rs, g1) && CoversBuckets(lib, rs, g2) && site in g1
    ensures site in g2
  {
    var version :| version in g1[site];
    assert Bucket(lib, rs, Slot(site, version)) != [];
  }

  lemma SiteMapsAgree<U>(lib: UriLib<U>, rs: seq<RawEntry>, g1: Groups, g2: Groups, site: string)
    requires HoldsBuckets(lib, rs, g1) && CoversBuckets(lib, rs, g1)
    requires HoldsBuckets(lib, rs, g2) && CoversBuckets(lib, rs, g2)
    requires site in g1 && site in g2
    ensures g1[site] == g2[site]
  {
    var m1, m2 := g1[site], g2[site];
    forall v | v in m1 ensures v in m2 && m1[v] == m2[v] {
      assert m1[v] == Bucket(lib, rs, Slot(site, v));
    }
    forall v | v in m2 ensures v in m1 {
      assert m2[v] == Bucket(lib, rs, Slot(site, v));
    }
    assert m1.Keys == m2.Keys;
  }

  // ---------------------------------------------------------------------------
  // Counting the grouped entries
  // ---------------------------------------------------------------------------

  /** The number of entries of `rs` whose URI parses. */
  function ValidCount<U>(lib: UriLib<U>, rs: seq<RawEntry>): nat
    decreases |rs|
  {
    if rs == [] then 0
    else ValidCount(lib, rs[..|rs| - 1]) + (if Classify(lib, rs[|rs| - 1], |rs| - 1).Some? then 1 else 0)
  }

  /** The sizes of the buckets of `slots`, added up. */
  function SumBuckets<U>(lib: UriLib<U>, rs: seq<RawEntry>, slots: seq<Slot>): nat
    decreases |slots|
  {
    if slots == [] then 0
    else SumBuckets(lib, rs, slots[..|slots| - 1]) + |Bucket(lib, rs, slots[|slots| - 1])|
  }

  /** How often `slot` occurs in `slots`. */
  function Hits(slots: seq<Slot>, slot: Slot): nat
    decreases |slots|
  {
    if slots == [] then 0
    else Hits(slots[..|slots| - 1], slot) + (if slots[|slots| - 1] == slot then 1 else 0)
  }

  lemma {:induction false} HitsDistinct(slots: seq<Slot>, slot: Slot)
    requires Distinct(slots)
    ensures Hits(slots, slot) == if slot in slots then 1 else 0
    decreases |slots|
  {
    if slots != [] {
      var n := |slots| - 1;
      var front := slots[..n];
      HitsDistinct(front, slot);
      assert slots == front + [slots[n]];
      if slots[n] == slot {
        assert slot !in front by {
          forall k | 0 <= k < n ensures front[k] != slot { assert slots[k] != slots[n]; }
        }
      }
    }
  }

  /** Adding one entry to `rs` adds, to the sum over `slots`, the number of
      times its slot occurs there. */
  lemma {:induction false} SumBucketsStep<U>(lib: UriLib<U>, rs: seq<RawEntry>, slots: seq<Slot>)
    requires rs != []
    ensures var n := |rs| - 1;
      SumBuckets(lib, rs, slots) == SumBuckets(lib, rs[..n], slots) +
        match Classify(lib, rs[n], n) case None => 0 case Some(p) => Hits(slots, p.slot)
    decreases |slots|
  {
    if slots != [] {
      SumBucketsStep(lib, rs, slots[..|slots| - 1]);
    }
  }

  /** Summed over any duplicate-free list of slots that names every non-empty
      bucket, the bucket sizes add up to the number of entries that parse. */
  lemma {:induction false} PartitionCount<U>(lib: UriLib<U>, rs: seq<RawEntry>, slots: seq<Slot>)
    requires Distinct(slots)
    requires forall slot: Slot | Bucket(lib, rs, slot) != [] :: slot in slots
    ensures SumBuckets(lib, rs, slots) == ValidCount(lib, rs)
    decreases |rs|
  {
    if rs == [] {
      ZeroSum(lib, rs, slots);
    } else {
      var n := |rs| - 1;
      forall slot: Slot | Bucket(lib, rs[..n], slot) != [] ensures slot in slots {
        assert Bucket(lib, rs, slot) == Bucket(lib, rs[..n], slot) + Contribution(lib, rs[n], n, slot);
      }
      PartitionCount(lib, rs[..n], slots);
      SumBucketsStep(lib, rs, slots);
      match Classify(lib, rs[n], n)
      case None =>
      case Some(p) =>
        assert p.item in Bucket(lib, rs, p.slot);
        HitsDistinct(slots, p.slot);
    }
  }

  lemma {:induction false} ZeroSum<U>(lib: UriLib<U>, rs: seq<RawEntry>, slots: seq<Slot>)
    requires rs == []
    ensures SumBuckets(lib, rs, slots) == 0
    decreases |slots|
  {
    if slots != [] {
      ZeroSum(lib, rs, slots[..|slots| - 1]);
    }
  }
}
