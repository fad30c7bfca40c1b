# Library search page: progress read-out and result grouping

A Dafny model of the logic inside the Freenet Library plugin's search page
(`MainPage`). The page does not show HTML here. It yields records that say
what each part of the page shows. Four pieces of the page are modelled, and
their properties are proved.

- **Progress read-out** (`progressBar`). A running search is a tree of
  requests. Each leaf becomes one row with:
  - the leaf's subject;
  - its stage: the current stage while it runs or has partial results, the
    state's name otherwise;
  - either no progress at all, or a bar whose width is the rounded-down
    percentage, plus a text cell. The text reads "N%" when the total is final
    and "Fetch length unknown" when it is not.

  A search over several indexes has a subject of the form
  `<query>%<index> <index>…`. It gives one row per index, labelled with
  `split("%")[1]` of that child's subject, which is the text between the
  first '%' and the next '%' (or the end), and holding the child's own rows. Any other branch gives its
  children's rows one after the other. Where Java would throw (a child of a
  multi-index search whose subject has no second '%'-field), the model
  returns `None`.
- **Result grouping** (`resultNodeGrouped`, first loop). Result entries whose
  URI does not parse are skipped. An SSK that stands for a USK is replaced by
  its USK form, and that edition becomes its version; every other URI gets
  version `Long.MIN_VALUE`. Each entry lands in the map site key → (version →
  entries). The site key is the URI with its meta strings removed and edition
  0, with the first "/0" cut out.
- **Result rendering** (`resultNodeGrouped`, second loop). The page walks the
  map site by site, and each site's versions in ascending order; only the last
  version is the newest. A version gets a headed block of its own when it has
  more than one entry or its site more than one version. The link to the
  older versions appears only on the newest version's heading, and only when
  older versions start hidden, scripts are on and there are older versions.
  An entry's title is its description, or its short URI when the description
  is blank or reads "not available". An entry whose stored URI fails to parse
  a second time is not drawn. The "Found N results" count goes up once per
  entry drawn.
- **Index list** (`processPostRequest`). The ids of the ticked bookmarks are
  each followed by a space, then the free-text index field is appended. The
  whole is trimmed, and the default index is used when nothing is left.

The Freenet URI library is foreign code. It is modelled as a record of
functions (`FreenetUri.UriLib`: parse, isSSKForUSK, uskForSSK, edition, the
site string, the short string and toString). Every property holds for any
such record. The HTTP request becomes parameters: the set of part names it
carries, the text of the index field, the list of bookmarks, the bookmark
prefix and the default index. Java's `String.trim`,
`split` on a one-character literal, `replaceFirst` with a literal pattern and
`Integer.toString` are written out in `JavaStrings`.

A leaf that is still fetching and whose total is not final shows "Fetch
length unknown", and its bar is still drawn at the percentage
(MainPage.java:306-310).

Files:
- `options.dfy`: `Option`.
- `java_strings.dfy`: the String methods listed above.
- `progress.dfy`: `progressBar`.
- `freenet_uri.dfy`: the URI library as parameters, and `long`.
- `grouping.dfy`: the grouping loop.
- `presentation.dfy`: the rendering loops, the count and `resultNodeGrouped`.
- `index_list.dfy`: the index-list assembly.

## Model

| member | source | states |
|---|---|---|
| Progress.Percentage | src/plugins/Library/ui/MainPage.java:305 | the percentage p is 100·done/total rounded down, that is p·total ≤ 100·done < (p+1)·total, and p ≤ 100 when done ≤ total |
| Progress.ProgressBar | src/plugins/Library/ui/MainPage.java:289-333 | the progress read-out of a request tree; its contract is stated by LeafRendering (leaves), FanoutByIndex (multi-index branches), FanoutFlattened (other branches) and OneFetchRowPerLeaf (one fetch row per leaf) |
| Progress.StageText | src/plugins/Library/ui/MainPage.java:297-300 | the stage cell: the current stage for INPROGRESS and PARTIALRESULT, the state's name otherwise; stated by LeafRendering |
| Progress.LeafCells | src/plugins/Library/ui/MainPage.java:302-311 | the progress cells of a leaf: none when done or the total is 0, else the bar at the truncated percentage with the "%" or "Fetch length unknown" text; stated by LeafRendering and Percentage |
| Progress.IndexRows | src/plugins/Library/ui/MainPage.java:316-322 | the per-index loop; stated by IndexRowsSpec, IndexRowsCons and IndexRowsLeaves |
| Progress.ConcatRows | src/plugins/Library/ui/MainPage.java:326-330 | the loop over plain children; stated by ConcatRowsSpec and ConcatRowsLeaves |
| Progress.LeafRendering | src/plugins/Library/ui/MainPage.java:292-312 | a leaf gives exactly one row. Its subject is the leaf's. Its stage is the current stage exactly for INPROGRESS/PARTIALRESULT, the state's name otherwise. It has no progress cells exactly when the leaf is done or partsTotal is 0. Otherwise the bar width is the truncated percentage, within [0,100] when partsDone ≤ partsTotal, the bar's final style follows isTotalFinal, and the text is the percentage + "%" when final and "Fetch length unknown" when not |
| Progress.IndexFanoutMatchesPattern | src/plugins/Library/ui/MainPage.java:314 | the decision the model makes for `matches(".+%.+[ ;].+")` holds exactly when the regular expression matches: a '%' after at least one character, then at least one character, then a space or ';' followed by at least one character, with no line terminator anywhere |
| Progress.IndexRowsSpec | src/plugins/Library/ui/MainPage.java:316-322 | the per-index loop succeeds exactly when every child has a second '%'-field and renders. It then gives exactly one row per child, in child order, labelled with that field and holding the child's rows |
| Progress.FanoutByIndex | src/plugins/Library/ui/MainPage.java:314-322 | a fanout whose subject matches the multi-index pattern renders as one labelled row per child, in order, and fails exactly when a child cannot be labelled or rendered |
| Progress.ConcatRowsSpec | src/plugins/Library/ui/MainPage.java:325-330 | the plain loop over children fails exactly when a child fails; otherwise its rows are the children's rows, concatenated in child order |
| Progress.FanoutFlattened | src/plugins/Library/ui/MainPage.java:324-331 | a fanout whose subject does not match the pattern renders as the concatenation of its children's renderings, and fails exactly when one of them fails |
| Progress.OneFetchRowPerLeaf | src/plugins/Library/ui/MainPage.java:289-333 | when rendering succeeds, the fetch rows, nested index rows included, number exactly the leaves of the request tree |
| Progress.IndexRowsLeaves | src/plugins/Library/ui/MainPage.java:316-322 | the per-index rows hold one fetch row per leaf of the children |
| Progress.ConcatRowsLeaves | src/plugins/Library/ui/MainPage.java:326-330 | the concatenated rows hold one fetch row per leaf of the children |
| Progress.IndexNameOfSubject | src/plugins/Library/ui/MainPage.java:320 | for a subject "<query>%<index>" with no other '%' and a non-empty index, `split("%")[1]` is the index name |
| Progress.IndexRowsCons | src/plugins/Library/ui/MainPage.java:317-321 | the first child's labelled row comes first, followed by the rows of the remaining children |
| Progress.TwoIndexSubject | src/plugins/Library/ui/MainPage.java:314 | "<query>%<index1> <index2>" with non-empty parts on one line is a multi-index subject |
| Progress.TwoIndexSearch | src/plugins/Library/ui/MainPage.java:289-333 | a search over two indexes with both leaves half fetched under an estimated total gives two index rows, named after the indexes, each with one row at width 50 and the text "Fetch length unknown" |
| JavaStrings.TrimSlice | src/plugins/Library/ui/MainPage.java:425 | `trim()` returns a middle slice of its input; the parts cut off are all space (characters ≤ U+0020), and the result neither starts nor ends with space |
| JavaStrings.TrimEmptyIffBlank | src/plugins/Library/ui/MainPage.java:425 | `s.trim()` is empty exactly when every character of s is space |
| JavaStrings.TrimPadded | src/plugins/Library/ui/MainPage.java:90 | a string that neither starts nor ends with space, followed by space only, trims back to that string |
| JavaStrings.IndexOf | src/plugins/Library/ui/MainPage.java:320 | the position of the first c in s, and -1 exactly when s has no c |
| JavaStrings.SecondField | src/plugins/Library/ui/MainPage.java:320 | `s.split(c)[1]`, or None where Java throws; stated by SecondFieldSpec, SecondFieldOfSplit and IndexNameOfSubject |
| JavaStrings.SplitJoin | src/plugins/Library/ui/MainPage.java:320 | the fields of a split on c, joined back with c, give the input |
| JavaStrings.SplitFromEmpty | src/plugins/Library/ui/MainPage.java:320 | the fields after a position are all empty exactly when the rest of the string is made of c alone |
| JavaStrings.DropTrailingSecond | src/plugins/Library/ui/MainPage.java:320 | once Java's trailing empty fields are dropped, the second field survives exactly when some field after the first is non-empty, and it is unchanged |
| JavaStrings.SecondFieldOfSplit | src/plugins/Library/ui/MainPage.java:320 | when s contains c, `s.split(c)[1]` is the first field after the first c, unless every later field is empty, in which case Java throws |
| JavaStrings.SecondFieldSpec | src/plugins/Library/ui/MainPage.java:320 | `s.split(c)[1]` exists exactly when s contains c and some character after the first c is not c; it is then the text from the first c up to the next c or the end |
| JavaStrings.RemoveFirstSpec | src/plugins/Library/ui/MainPage.java:367 | `replaceFirst(pat, "")` cuts out the first occurrence of the pattern and keeps everything around it |
| JavaStrings.RemoveFirstAbsent | src/plugins/Library/ui/MainPage.java:367 | when the pattern does not occur, `replaceFirst(pat, "")` returns the input unchanged |
| JavaStrings.NatToStringRoundTrip | src/plugins/Library/ui/MainPage.java:310 | the decimal form of a number is a non-empty string of digits with no leading zero, and reading it back gives the number |
| FreenetUri.SiteBase | src/plugins/Library/ui/MainPage.java:367 | the site key: the library's string of the URI without meta strings and with edition 0, with the first "/0" cut out; the cut is stated by JavaStrings.RemoveFirstSpec and JavaStrings.RemoveFirstAbsent |
| Grouping.Classify | src/plugins/Library/ui/MainPage.java:351-367 | an entry is placed exactly when its URI parses. An SSK for a USK goes under the USK's site key with the USK's edition as version; any other URI goes under its own site key with version Long.MIN_VALUE. The stored entry carries the parsed URI's string form (the `o.URI` rewrite) |
| Grouping.AddEntry | src/plugins/Library/ui/MainPage.java:370-377 | one insertion creates the site's map and the version's set when missing and adds the entry to that set; the list of site keys stays a duplicate-free list of exactly the map's keys |
| Grouping.AddPreservesGrouping | src/plugins/Library/ui/MainPage.java:359-377 | adding a parsed entry to the map of the entries before it gives the map of the entries up to it |
| Grouping.SkipPreservesGrouping | src/plugins/Library/ui/MainPage.java:352-358 | skipping an entry that does not parse keeps the map the map of the entries up to it |
| Grouping.PlaceEntry | src/plugins/Library/ui/MainPage.java:349-377 | one round of the loop keeps the invariant that the map holds exactly the non-empty buckets of the entries seen so far; a malformed entry leaves the map and the site list unchanged |
| Grouping.GroupResults | src/plugins/Library/ui/MainPage.java:346-378 | the loop's map has every site non-empty, holds for each slot exactly the entries classified there in arrival order, and has a slot for every non-empty bucket; it also returns the list of its site keys |
| Grouping.BucketMembers | src/plugins/Library/ui/MainPage.java:377 | an entry is in the set of a slot exactly when it is the entry at its position in the results and that entry is classified into the slot |
| Grouping.EntryInExactlyOneSet | src/plugins/Library/ui/MainPage.java:359-377 | an entry whose URI parses is in the set `groupmap[siteBase][version]` it is classified to, and in no other set |
| Grouping.MalformedEntrySkipped | src/plugins/Library/ui/MainPage.java:352-358 | an entry whose URI does not parse is in no set |
| Grouping.GroupingUnique | src/plugins/Library/ui/MainPage.java:346-378 | two maps that both group the same results are equal, so the grouping is determined by the results alone |
| Grouping.PartitionCount | src/plugins/Library/ui/MainPage.java:346-378 | summed over any duplicate-free list of slots naming every non-empty bucket, the bucket sizes add up to the number of entries whose URI parses |
| Presentation.ShowTitleTrimmed | src/plugins/Library/ui/MainPage.java:423-427 | the title is the short URI exactly when `descr.trim().length() == 0` or the description equals "not available", and the description otherwise |
| Presentation.ShowTitle | src/plugins/Library/ui/MainPage.java:423-427 | the title of an entry; stated by ShowTitleTrimmed |
| Presentation.RenderPage | src/plugins/Library/ui/MainPage.java:421-437 | the page of one entry; stated by RenderPageSpec |
| Presentation.RenderPageSpec | src/plugins/Library/ui/MainPage.java:421-437 | an entry is drawn exactly when its stored URI parses again; then its title is the short URI when the description trims to nothing or reads "not available" and the description otherwise, the title and the short URI link to "/" + the URI, the tooltip is the stored string, and the "[ USK ]" link to "/" + the USK form is there exactly when the URI is an SSK standing for a USK |
| Presentation.VersionHeading | src/plugins/Library/ui/MainPage.java:401-408 | the heading of a version; stated by VersionBlocks and VersionSuffixDecimal |
| Presentation.RenderSite | src/plugins/Library/ui/MainPage.java:382-398 | the view of one site; stated by SiteVersionOrder, VersionBlocks and SitePageCount |
| Presentation.AscendingSpec | src/plugins/Library/ui/MainPage.java:393 | the version order the TreeMap iterates lists every version of the site once, in strictly ascending order |
| Presentation.RenderEntries | src/plugins/Library/ui/MainPage.java:418-443 | the entry loop draws, in order, the page of every entry whose URI parses again, and its count is the number of pages drawn |
| Presentation.DrawVersion | src/plugins/Library/ui/MainPage.java:395-443 | one version is drawn as its view (heading, when it is a block of its own, and pages), and its count is its number of pages |
| Presentation.DrawSite | src/plugins/Library/ui/MainPage.java:382-444 | the version loop draws a site's versions in ascending order, with only the last one newest; its count is the pages drawn over all versions |
| Presentation.RenderGroups | src/plugins/Library/ui/MainPage.java:380-445 | the site loop draws one view per site, in the order the sites are visited, and its count is the pages drawn over all sites |
| Presentation.ResultNodeGrouped | src/plugins/Library/ui/MainPage.java:341-448 | the method builds the map that groups the results, draws each of its sites once, and counts the pages drawn. The count is at most the number of entries whose URI parses, and equal to it when every printed URI parses again |
| Presentation.SiteVersionOrder | src/plugins/Library/ui/MainPage.java:393-398 | a site's versions are drawn each once, strictly ascending, with Long.MIN_VALUE first when present, and exactly the last one is the newest |
| Presentation.VersionBlocks | src/plugins/Library/ui/MainPage.java:386-408 | the toggle title appears exactly when the site has more than one version, and the older-versions block starts shown exactly when showold is set. A version has a heading exactly when it has more than one entry or the site more than one version, and the heading carries the version suffix. The "N older matching versions" link appears exactly on the newest version when older versions are hidden, scripts are on and the site has several versions, and N is the number of other versions |
| Presentation.VersionSuffixDecimal | src/plugins/Library/ui/MainPage.java:405 | the heading suffix is empty for negative versions, and for others "-" followed by the decimal digits of the version |
| Presentation.PagesOfEntries | src/plugins/Library/ui/MainPage.java:418-443 | a version draws at most one page per entry, and exactly one per entry, in order, when every entry's URI parses |
| Presentation.BucketParses | src/plugins/Library/ui/MainPage.java:354 | the URI strings the grouping stores were printed by the library, so they parse again when the library's print-then-parse round trip holds |
| Presentation.SitePageCount | src/plugins/Library/ui/MainPage.java:393-444 | a site draws at most as many pages as its versions' sets hold entries, and exactly that many when stored URIs parse again |
| Presentation.ResultCount | src/plugins/Library/ui/MainPage.java:438 | the number of entries drawn is at most the number of entries whose URI parses, and equal to it when every printed URI parses again |
| Presentation.FoundTextCount | src/plugins/Library/ui/MainPage.java:446 | the summary reads "Found", the count in decimal digits, then "results", and the count can be read back from it |
| Presentation.FoundText | src/plugins/Library/ui/MainPage.java:446 | the summary line; stated by FoundTextCount |
| IndexList.AssembleIndexList | src/plugins/Library/ui/MainPage.java:81-93 | the loop builds the index list the search is started with: the ticked bookmark ids, each followed by a space, then the index field when set; the whole trimmed, or the default index when empty |
| IndexList.IndexUri | src/plugins/Library/ui/MainPage.java:81-93 | the index list the search is started with; stated by IndexUriCases, RawBlank, IndexUriOfBookmarks and, for the loop, AssembleIndexList |
| IndexList.TickedMembers | src/plugins/Library/ui/MainPage.java:83-87 | an id is in the list exactly when the request sets it and it is the bookmark prefix followed by one of the bookmarks |
| IndexList.SpacedJoin | src/plugins/Library/ui/MainPage.java:83-87 | the accumulated ids are the ids joined by single spaces, followed by one space |
| IndexList.SpacedBlank | src/plugins/Library/ui/MainPage.java:83-87 | the accumulated ids are blank exactly when every id is |
| IndexList.IndexUriCases | src/plugins/Library/ui/MainPage.java:90-93 | the default index is used exactly when the untrimmed string is blank. Otherwise the list is the trimmed string, which is non-empty and neither starts nor ends with space |
| IndexList.RawBlank | src/plugins/Library/ui/MainPage.java:81-93 | with a non-blank bookmark prefix, the untrimmed string is blank exactly when no bookmark is ticked and the index field is absent or blank |
| IndexList.IndexUriOfBookmarks | src/plugins/Library/ui/MainPage.java:81-93 | without the index field, and with ticked ids that neither start nor end with space, the list is the ticked ids joined by single spaces, in bookmark order |

## Left out

- HTML construction is not modelled. That covers CSS classes, colours, the script tag, the Refresh header, the result HTML and the `searchBox` form (MainPage.java:121-251). Rendering yields records instead. The newest version's colours are the `newest` flag of its view.
- `addError` and the `Logger` calls are not modelled: they are diagnostic output.
- The search lifecycle is not modelled: `Search.getSearch`, `library.startSearch` and their exceptions are external and concurrent. The same holds for a `TaskAbortException` from `getResult`.
- The FreenetURI library (parsing, `toString`, `toShortString`, `setMetaString`, `setSuggestedEdition`, the USK conversion) is foreign. It is a parameter record, not a definition.
- `Request.java`, `URIWrapper.java` and `Library.java` are not part of this model. The request state is an enumeration with INPROGRESS, PARTIALRESULT, FINISHED and other named states. `BOOKMARK_PREFIX`, `DEFAULT_INDEX_SITE` and the bookmark list are parameters.
- The 256-character limit of `getPartAsString` is not modelled: it belongs to the request library, so the caller supplies the field's text.
- The text of the site and version headings is not modelled. It is the site key rewritten by `replaceAll("\\b.*/(.*)", "$1")`. The model records only the version suffix and where each heading and link appears.
- `HashMap` key order is not modelled. The rendering takes any duplicate-free list of the map's keys, and the grouping loop lists sites in the order they first appear.
- `HashSet` order is taken to be arrival order. `URIWrapper` equality is taken to be identity, so entries are told apart by their position in the results.
- Progress.Percentage: Java `int`/`long` overflow of `100*partsDone` is not modelled. The field types live in Request.java, so the counters are unbounded naturals.
- Presentation.ResultNodeGrouped: the `int` count's overflow is not modelled.
- Presentation.ResultNodeGrouped: the count equals the number of parsing entries only when every URI string the library prints parses again (`Reparses`). Otherwise only an upper bound is proved, because a second parse may throw at MainPage.java:422.
- Presentation.ResultCount: the same `Reparses` condition applies, for the same reason.
- The nested loops of the rendering are split into one method per loop: `RenderGroups`, `DrawSite`, `DrawVersion` and `RenderEntries`.
- In `progressBar`, the iteration order of `getSubRequests()` is taken to be the order of the children sequence.
