# APIFinder discovery core in Dafny

This project models the decision logic of APIFinder, a tool that crawls a web
site, collects its scripts and stylesheets, pulls API endpoints out of them,
and sorts the endpoints by HTTP verb and by host. Four parts are modelled.

- **URL helpers** (`apifinder/utils.py`).
  - `process_url` is modelled as `Utils.ProcessUrl`. It is the tool's own
    relative-reference resolver: a blacklist, then absolute, scheme-relative,
    root-relative and directory-relative branches.
  - `find_last_occurrences` is the loop `Utils.FindLastOccurrences`.
  - The dictionary test `is_api_path` is `Utils.IsApiPath`.
  - The part of `urllib.parse.urlparse` these use is the module `UrlSplit`:
    scheme, netloc and path.
- **Extractor** (`apifinder/extractor.py`). The class
  `Extractor.APIExtractor` keeps the `found_apis` set.
  - `_is_valid_api` is the validation gate, `IsValidApi`.
  - The gate sits behind the classification of regex matches (`ExtractApis`
    with `HandleMatch`), the dictionary pass (`CheckDictionaryMatches`), and
    the HTML-element and CSS entry points.
  - Each method is proved against a specification function: `GatePass`,
    `RegexPass`, `DictionaryPass`, `ExtractSpec` or `CssSpec`. Lemmas state
    what those functions mean.
- **Result processor** (`apifinder/processor.py`). The class
  `Processor.ResultProcessor` holds:
  - eight verb buckets;
  - the `all_urls` set;
  - the related-domain set;
  - the domain-to-URL map.

  Its methods are these:
  - `ProcessApis` runs the pending-method state machine, proved against
    `Step`/`Run`.
  - `ProcessApiUrl` is the absolutising rule.
  - `ExtractRelatedDomains` computes the root part and groups URLs by host.
  - `RemoveDuplicates` deduplicates each bucket in order.
- **Crawler** (`apifinder/crawler.py`). The class `Crawling.Crawler` holds
  the visited set and the two external-resource sets.
  - `DeepCrawl` is the bounded breadth-first crawl over a FIFO queue of
    (url, depth) pairs.
  - `FindLinks` lists a page's links.
  - `GetScripts` and `GetStylesheets` concatenate the inline text and fetch
    each new external resource once.

The network, the HTML parser and the regular-expression engine are
parameters:
- `fetch(url)` returns `Option<string>`.
- `parse(html)` returns the tags the source reads, as a `Markup` value.
- The regex matches are `PatternMatch` records: whole text, group 3 and
  group 4.
- The `\b` word search is the parameter `wordMatch`.

Because of these parameters, the crawl invariants can be stated over any
fetch and parse:
- the count cap and the depth cap;
- each URL visited by this call is reachable from the start through the
  link graph at a depth within the cap (URLs already visited before the call
  are not examined);
- the queue has no duplicates; only its head may be visited, and then only
  by an earlier call; its depths are non-decreasing;
- the start URL is visited whenever it was not visited before and both caps
  allow one visit;
- completeness: a crawl from an empty visited set that stops below the
  count cap has visited every URL reachable from the start within the depth
  cap, because the queue is breadth-first (proved through a ghost map of the
  depth at which each URL was visited);
- the crawl terminates.

The visited-set cap is proved as the code gives it. The loop only checks
`len(visited_urls) < max_urls` before adding. A crawler whose visited set
already exceeds `max_urls` from an earlier call therefore adds nothing, and
does not shrink to the cap. So the bound is "unchanged, or at most
`max_urls`", not an unconditional "never exceeds `max_urls`".

## Model

| member | source | states |
|---|---|---|
| Utils.ProcessUrl | apifinder/utils.py:22-53 | None exactly when the base or the reference is empty or the reference starts with a blacklisted prefix; otherwise the result ends with the reference and, unless the reference is `http(s)://`, starts with the base scheme and `:` |
| Utils.ProcessUrlAbsolute | apifinder/utils.py:38-39 | an `http://` or `https://` reference against a non-empty base is returned unchanged |
| Utils.Resolve | apifinder/utils.py:37-53 | past the empty and blacklist checks, the result ends with the reference and, unless the reference is `http(s)://`, starts with the base scheme and `:` |
| Utils.ProcessUrlSchemeRelative | apifinder/utils.py:41-43 | `//x` resolves to the base scheme, `:`, then `//x` |
| Utils.ProcessUrlRootRelative | apifinder/utils.py:45-47 | `/p` (not `//`) resolves to `scheme://netloc/p` of the base |
| Utils.ProcessUrlJoinsDirectory | apifinder/utils.py:49-53 | any other reference is appended to `scheme://netloc` plus the directory of the base path |
| Utils.DirectoryBranches | apifinder/utils.py:50-53 | the two branches are one rule: the whole path when it ends in `/`, else the path without its last segment, followed by `/` |
| Utils.ParentDirCutsLastSegment | apifinder/utils.py:53 | `'/'.join(path.split('/')[:-1])` is the path minus its last segment and that segment's slash, or empty when there is no slash |
| Utils.ResolveJoinsDirectory | apifinder/utils.py:49-53 | the resolution of a directory-relative reference is scheme, `://`, netloc, directory, reference |
| Utils.DirectoryIsRooted | apifinder/utils.py:50-53 | for an empty or rooted base path the directory starts with `/` |
| Utils.ProcessUrlStaysOnBaseHost | apifinder/utils.py:41-53 | a reference that is not absolute or scheme-relative, against a base with scheme and host, resolves to a URL with the same scheme and host |
| Utils.ProcessUrlDirectoryStaysOnBaseHost | apifinder/utils.py:49-53 | the same for the directory-relative branch |
| Utils.ResolveRootExample | apifinder/utils.py:46-47 | `/foo/bar` against `https://h/x/y` is `https://h/foo/bar` |
| Utils.ResolveDirectoryExample | apifinder/utils.py:50-53 | `baz` against `https://h/x/y` is `https://h/x/baz` |
| Utils.ResolveBareHostExample | apifinder/utils.py:50-53 | `baz` against `https://h` (empty path) is `https://h/baz` |
| Utils.ResolveSchemeRelativeExample | apifinder/utils.py:42-43 | `//r` against an `https` base is `https://r` |
| Utils.FindJump | apifinder/utils.py:60-64 | one `find` from a position yields the first occurrence list entry, or ends the list when it returns -1 |
| Utils.OccurrencesSpec | apifinder/utils.py:55-65 | the occurrence list is strictly increasing, every entry is an occurrence, and every occurrence from the start position (overlapping ones included) is listed |
| Utils.OccurrencesSkip | apifinder/utils.py:60 | positions holding no occurrence can be skipped without changing the list |
| Utils.FindLastOccurrences | apifinder/utils.py:55-65 | the loop returns exactly the occurrence list: strictly increasing, each an occurrence, none missing |
| Utils.MatchesAnyPatternIsSubstring | apifinder/utils.py:103-106 | the pattern loop succeeds exactly when some pattern is a substring of the path |
| Utils.IsApiPath | apifinder/utils.py:94-106 | `is_api_path` is false for an empty URL or dictionary, else true exactly when some pattern is a substring of the URL's path |
| Text.PrefixSuffixAreSubstrings | apifinder/utils.py:104 | a prefix or a suffix is a substring, so the `startswith`/`endswith` disjuncts add nothing |
| Text.Find | apifinder/utils.py:60 | `str.find`: -1 when there is no occurrence from `start`, else the first occurrence at or after `start` |
| Text.ContainsIff | apifinder/utils.py:104 | `sub in s` holds exactly when `sub` occurs at some index |
| Text.JoinSplit | apifinder/utils.py:53 | joining the pieces of a split on a character gives back the string |
| UrlSplit.Parse | apifinder/utils.py:32-35 | the netloc holds no `/`, `?` or `#`, the path no `?` or `#`, and with a netloc the path is empty or starts with `/` |
| UrlSplit.ParsedScheme | apifinder/utils.py:33 | a parsed scheme is empty or a lower-case scheme name |
| UrlSplit.ParseComposed | apifinder/utils.py:47 | parsing `scheme://netloc` + rooted rest gives back that scheme, netloc and path |
| Seqs.DedupNoDup | apifinder/processor.py:97-102 | the order-preserving dedup has no duplicates |
| Seqs.DedupSameElements | apifinder/processor.py:97-102 | the dedup keeps exactly the elements of its input |
| Seqs.DedupFirstOccurrenceOrder | apifinder/processor.py:97-102 | the dedup lists elements in the order of their first occurrence |
| Seqs.DedupIdempotent | apifinder/processor.py:93-103 | deduplicating twice is deduplicating once |
| Seqs.DedupOfNoDup | apifinder/processor.py:97-102 | a list without duplicates is left unchanged |
| Extractor.APIExtractor.constructor | apifinder/extractor.py:9-13 | the dictionary is the one given (none means empty) and `found_apis` starts empty |
| Extractor.APIExtractor.IsValidApi | apifinder/extractor.py:54-75 | accepts exactly a non-empty, not yet recorded candidate whose lower-case form contains a basic API pattern or that `is_api_path` accepts; records it exactly when accepting |
| Extractor.GatePassRecords | apifinder/extractor.py:60-73 | after a series of gate calls the recorded set is the old set plus the accepted candidates, none of which was recorded before, each accepted once |
| Extractor.GatePassIsDedup | apifinder/extractor.py:54-75 | the accepted candidates are the eligible candidates not recorded before, each at its first occurrence, in order |
| Extractor.GatePassCompose | apifinder/extractor.py:60-68 | two successive series of gate calls equal one series on the joined candidates: `found_apis` persists across calls |
| Extractor.GatePassSnoc | apifinder/extractor.py:54-75 | one more gate call appends and records the candidate exactly when it is accepted |
| Extractor.RegexPassIsGatePass | apifinder/extractor.py:25-46 | the `url` findings of the match loop are exactly the gate's accepted candidates (group 3, else group 4, else the stripped match), and so is the recorded set |
| Extractor.RegexPassVerbs | apifinder/extractor.py:25-46 | the `method` findings are the upper-cased verb matches in order; each match yields at most one finding |
| Extractor.Classify | apifinder/extractor.py:26-46 | a match is a verb exactly when its quote-stripped, upper-cased text is one of the seven verbs, named by that upper-cased text; otherwise its candidate is group 3 when non-empty, else group 4 when non-empty, else the stripped text |
| Extractor.ColonMatchIsNoVerb | apifinder/extractor.py:26-29 | a match whose text contains `:` is never classified as a verb |
| Extractor.StripKeeps | apifinder/extractor.py:26 | stripping quotes keeps every other character present |
| Extractor.Simplified | apifinder/extractor.py:80 | the simplified content has no quote characters and is no shorter than the content |
| Extractor.DictionaryPassExtends | apifinder/extractor.py:82-89 | the pass only appends; each appended finding is a word-matching dictionary entry not listed before; afterwards every word-matching entry is listed as a `url` finding |
| Extractor.DictionaryPassNewUrl | apifinder/extractor.py:82-89 | a `url` finding present after the pass and not before is a dictionary entry that word-matches |
| Extractor.DictionaryHitsStep | apifinder/extractor.py:82-89 | each further dictionary entry adds itself to the hits exactly when it matches and is not already a finding |
| Extractor.DictionaryPassRecords | apifinder/extractor.py:86-89 | the pass records exactly the entries it appends |
| Extractor.DictionaryPassIgnoresFound | apifinder/extractor.py:87-89 | the findings of the pass do not depend on `found_apis`, so an entry can be reported again on later calls |
| Extractor.ExtractSpecRecords | apifinder/extractor.py:17-52 | `found_apis` only grows, and every newly recorded value is reported as a `url` finding |
| Extractor.UrlValuesAreFindings | apifinder/extractor.py:25-46 | every listed `url` value comes from a `url` finding |
| Extractor.APIExtractor.ExtractApis | apifinder/extractor.py:17-52 | no findings for empty content; else the match loop then, with a dictionary, the dictionary pass on the simplified content, with the recorded set following the gate |
| Extractor.APIExtractor.HandleMatch | apifinder/extractor.py:25-46 | one match extends the findings and the recorded set as the specification of the match loop does |
| Extractor.APIExtractor.CheckDictionaryMatches | apifinder/extractor.py:77-89 | the list and `found_apis` are extended as the dictionary pass specifies |
| Extractor.APIExtractor.ExtractApisFromHtmlElements | apifinder/extractor.py:91-97 | the `url` findings are the element values the gate accepts, in input order, kind ignored |
| Extractor.CssFinding | apifinder/extractor.py:109-113 | a capture is reported raw without a base or when absolute, else as its resolution; the resolution fails exactly for an empty or blacklisted capture |
| Extractor.CssSpecFindings | apifinder/extractor.py:99-118 | the CSS findings start with one finding per eligible capture not recorded before, at first occurrence, in order, each resolved after validation; the recorded set grows by those captures |
| Extractor.APIExtractor.ExtractApisFromCss | apifinder/extractor.py:99-118 | no findings for empty CSS; else the gate on the raw captures, resolution, then the dictionary pass |
| Processor.ProcessApiUrl | apifinder/processor.py:45-61 | None exactly when the URL or the base is empty; otherwise a non-empty URL ending with the given one |
| Processor.ProcessApiUrlCases | apifinder/processor.py:47-61 | a URL with scheme and host is kept; a `/` URL goes after `scheme://netloc`; any other after `scheme://netloc/` |
| Processor.ProcessApiUrlStaysOnBaseHost | apifinder/processor.py:57-61 | a URL without scheme and host is put on the base's scheme and host |
| Processor.ProcessApiUrlIgnoresBasePath | apifinder/processor.py:50-61 | two bases with the same scheme and host resolve every URL alike: the base path plays no part |
| Processor.EmptyBuckets | apifinder/processor.py:9-18 | the eight named buckets, all empty |
| Processor.ResultProcessor.constructor | apifinder/processor.py:7-21 | empty buckets, URL set, related domains and domain map; `all_urls` is the set of bucketed URLs, as every later operation keeps it |
| Processor.Step | apifinder/processor.py:28-43 | classifying one finding keeps the set of bucket names (what it does to the buckets is stated by `StepBuckets` and `SkippedFindingKeepsState`) |
| Processor.Run | apifinder/processor.py:27-43 | classifying a run of findings keeps the set of bucket names (its effect is stated by `RunAppendOnly` and the lemmas below) |
| Processor.StepBuckets | apifinder/processor.py:28-43 | a taken URL is appended to the pending method's bucket when the register holds a non-empty bucket name, else to `UNKNOWN_METHOD`, and no other bucket changes; `all_urls` gains it and stays the set of bucketed URLs; the register is cleared exactly when the URL paired; a method finding sets the register to its verb; any other finding changes neither buckets, `all_urls` nor the register |
| Processor.StepAppendOnly | apifinder/processor.py:28-43 | one step only appends to buckets and keeps `all_urls` the set of bucketed URLs |
| Processor.RunAppendOnly | apifinder/processor.py:27-43 | buckets are append-only and `all_urls` stays the set of bucketed URLs |
| Processor.SkippedFindingKeepsState | apifinder/processor.py:32-35 | a `url` finding that is empty or fails to resolve changes nothing, the pending method included |
| Processor.MethodPairsWithNextUrlOnly | apifinder/processor.py:30-43 | `[method v, a, b]` puts `a` in bucket `v` and `b` in `UNKNOWN_METHOD`, and clears the pending method |
| Processor.DroppedUrlKeepsMethodPending | apifinder/processor.py:32-41 | `[method v, empty url, a]` still puts `a` in bucket `v` |
| Processor.NoMethodMeansUnknown | apifinder/processor.py:39-43 | without method findings every taken URL goes to `UNKNOWN_METHOD` in order and no other bucket changes |
| Processor.UnpairedStep | apifinder/processor.py:39-43 | with nothing pending, one non-method finding appends its taken URL, if any, to `UNKNOWN_METHOD` |
| Processor.RunSnoc | apifinder/processor.py:27-43 | classifying one more finding is one more step |
| Processor.ResultProcessor.ProcessApis | apifinder/processor.py:23-43 | the buckets and `all_urls` become the classification of all findings, group after group, from a fresh pending method; `all_urls` stays the set of bucketed URLs; the domain fields are unchanged |
| Processor.ResultProcessor.TakeGroup | apifinder/processor.py:28-43 | one group of findings advances the state as the classification of that group does, the pending method carried across |
| Processor.ResultProcessor.TakeFinding | apifinder/processor.py:29-43 | one finding changes the buckets, `all_urls` and the pending method as one classification step |
| Processor.MainPart | apifinder/processor.py:72-75 | the root part is a suffix of the host |
| Processor.RootPart | apifinder/processor.py:72-75 | the method computes the root part via the occurrence list of `.` |
| Processor.MainPartLastTwoLabels | apifinder/processor.py:72-75 | for a host `a.b.c` with dot-free `b`, `c` the root part is `b.c` |
| Processor.MainPartFewDots | apifinder/processor.py:72-75 | a host with fewer than two dots is its own root part |
| Processor.OccurrencesTail | apifinder/processor.py:72-75 | the occurrences from a later position are a suffix of the occurrence list |
| Processor.LastTwoDots | apifinder/processor.py:72-75 | in `a.b.c` with dot-free `b`, `c` the dots from the first shown are at `|a|` and `|a|+1+|b|` |
| Processor.Affine | apifinder/processor.py:82-83 | a related URL has a non-empty host, and every URL whose host starts or ends with the root part is related |
| Processor.SiblingHostIsRelated | apifinder/processor.py:72-85 | a URL on host `x.b.c` is related to the main host `a.b.c` |
| Processor.ResultProcessor.ExtractRelatedDomains | apifinder/processor.py:63-91 | nothing changes for an empty main URL or empty `all_urls`; else the main host and every host containing the root part are added, and the map gains those hosts with each list extended by the URLs on that host |
| Processor.ResultProcessor.GroupUrls | apifinder/processor.py:81-91 | the grouping loop adds the hosts of the related URLs and keeps the grouping invariant over all URLs |
| Processor.ResultProcessor.GroupUrl | apifinder/processor.py:82-91 | one URL adds its host when related and appends it to its host's list unless already listed |
| Processor.GroupingStart | apifinder/processor.py:81-91 | the grouping invariant holds before the loop |
| Processor.GroupingStep | apifinder/processor.py:81-91 | one URL keeps the grouping invariant |
| Processor.RelatedStep | apifinder/processor.py:84-85 | one URL keeps the related-domain invariant |
| Processor.GroupedKeepsPrefixes | apifinder/processor.py:88-91 | the old lists stay prefixes of the new ones |
| Processor.GroupedNewKeys | apifinder/processor.py:88-91 | a host added to the map has a non-empty list |
| Processor.GroupedCovers | apifinder/processor.py:88-91 | every related URL handled is listed under its host |
| Processor.GroupedOnly | apifinder/processor.py:88-91 | every listed URL was listed before or is a related URL handled |
| Processor.GroupedWellGrouped | apifinder/processor.py:88-91 | every list stays duplicate-free and holds only URLs on its host |
| Processor.GroupingMeans | apifinder/processor.py:81-91 | the invariant gives the key set (old hosts plus related hosts) and each list's contents (old URLs plus related URLs on that host) |
| Processor.GroupingKeys | apifinder/processor.py:81-91 | the invariant gives the key set of the map |
| Processor.GroupingElementsAt | apifinder/processor.py:88-91 | the invariant gives the contents of each list |
| Processor.OldList | apifinder/processor.py:88-89 | the list a host had before, or nothing, holds the host's old URLs |
| Processor.UniqueInOrder | apifinder/processor.py:97-102 | the loop returns the order-preserving dedup: no duplicates, same elements |
| Processor.ResultProcessor.DedupBucket | apifinder/processor.py:97-103 | one bucket is replaced by its dedup, nothing else changes |
| Processor.ResultProcessor.RemoveDuplicates | apifinder/processor.py:93-106 | every bucket is replaced by its order-preserving dedup, so `all_urls` stays the set of bucketed URLs; the other fields are unchanged |
| Processor.DedupKeepsBucketUrls | apifinder/processor.py:93-106 | deduplicating every bucket keeps the set of bucketed URLs |
| Crawling.PageContent | apifinder/crawler.py:139-142 | the given HTML when non-empty, else the fetched body, else nothing |
| Crawling.ResolvedMembers | apifinder/crawler.py:147-151 | the resolved links are exactly the successful resolutions of the hrefs |
| Crawling.Unseen | apifinder/crawler.py:151-152 | the unseen list has no duplicates and holds exactly the input elements outside the excluded set |
| Crawling.LinksFromSpec | apifinder/crawler.py:137-154 | no link twice; a URL is a link exactly when some non-empty href resolves to it |
| Crawling.Crawler.FindLinks | apifinder/crawler.py:137-154 | the loop returns the page's resolved hrefs in document order, each once, none without a page |
| Crawling.LinksOfFetched | apifinder/crawler.py:176-181 | a page fetched with content has as its links in the graph what `find_links` finds on its body |
| Crawling.ReachesHasPath | apifinder/crawler.py:182-185 | a URL reached at depth `d` is the end of a link path of `d` pages from the start |
| Crawling.LinkPathSnoc | apifinder/crawler.py:182-185 | a link path extended by a link of its last page is a link path |
| Crawling.PathReaches | apifinder/crawler.py:182-185 | the end of a link path of `n` pages is reached at depth `n` |
| Crawling.Enqueue | apifinder/crawler.py:182-185 | the queue gains, in order and at the given depth, each page link not visited and not already queued, each once |
| Crawling.EnqueueStep | apifinder/crawler.py:182-185 | one more link keeps the enqueue invariant |
| Crawling.UnseenSnoc | apifinder/crawler.py:182-185 | one more link joins the unseen list exactly when it is neither excluded nor already listed |
| Crawling.QueueOkTail | apifinder/crawler.py:164-172 | popping the head keeps the queue well formed, also after its URL is marked visited |
| Crawling.QueueOkExpand | apifinder/crawler.py:182-185 | appending the new links of a visited page at depth + 1 keeps every entry reachable at its depth, depths non-decreasing within one level, and URLs unique and unvisited |
| Crawling.CrawlStart | apifinder/crawler.py:160 | the crawl invariant holds for the queue `[(start, 1)]` |
| Crawling.CrawlSkip | apifinder/crawler.py:166-170 | dropping the head (visited or too deep) keeps the invariant without marking it visited |
| Crawling.CrawlVisit | apifinder/crawler.py:169-172 | marking an unvisited head within the depth cap visited, under the count cap, keeps the invariant |
| Crawling.CrawlExpand | apifinder/crawler.py:176-185 | enqueuing a visited page's links keeps the invariant |
| Crawling.FailedFetchAddsNothing | apifinder/crawler.py:176-178 | a page whose fetch gives no content has no links in the graph and adds nothing to the queue |
| Crawling.CrawlInvStart | apifinder/crawler.py:160 | the whole loop invariant holds for the queue `[(start, 1)]`, nothing visited by the call yet |
| Crawling.CoveredTail | apifinder/crawler.py:164-170 | dropping a head that is visited or too deep leaves accounted for every URL that was accounted for at a depth within the cap |
| Crawling.CrawlInvSkip | apifinder/crawler.py:164-170 | dropping the head (visited or too deep) keeps the whole loop invariant, frontier included |
| Crawling.CoveredVisit | apifinder/crawler.py:164-172 | visiting the head at its depth leaves accounted for every URL that was |
| Crawling.LinkCovered | apifinder/crawler.py:172-185 | after a visit at depth `d`, each link of the page is visited, queued or appended at depth `d + 1` or less |
| Crawling.FrontierVisit | apifinder/crawler.py:164-185 | visiting the head and appending its new links keeps the breadth-first frontier: visit depths never exceed queued depths, the start and every link of a page visited below the depth cap stay accounted for one level below it |
| Crawling.CrawlInvVisit | apifinder/crawler.py:164-185 | visiting an unvisited head within both caps and appending its new links keeps the whole loop invariant |
| Crawling.ReachedIsVisited | apifinder/crawler.py:163-185 | once the queue is empty, every URL reached at depth `d` within the cap was visited, at depth `d` or less |
| Crawling.CrawlEnd | apifinder/crawler.py:163 | when the loop stops, the start is visited if the call could visit anything, and a crawl from an empty visited set that stopped below the count cap visited every URL within `max_depth` of the start |
| Crawling.Crawler.VisitHead | apifinder/crawler.py:172-185 | the popped URL is marked visited whatever its fetch gives; a fetch without content leaves the queue unchanged; otherwise exactly the page's links that are neither visited nor queued join the back, in order, each once, one level deeper |
| Crawling.Crawler.DeepCrawl | apifinder/crawler.py:156-188 | returns the visited set, which only grows; it stays unchanged or within `max_urls`; every new URL is reachable from the start within `max_depth`; the start is visited when it was not and both caps allow a visit; from an empty visited set, a crawl that stops below `max_urls` has visited every URL within `max_depth` of the start; the external-resource sets are untouched |
| Crawling.Crawler.constructor | apifinder/crawler.py:10-20 | the visited and external-resource sets start empty |
| Crawling.Blocks | apifinder/crawler.py:50-53 | the concatenation is empty exactly when there are no texts |
| Crawling.BlocksSnoc | apifinder/crawler.py:53 | one more block appends its text and a blank line |
| Crawling.InlineTexts | apifinder/crawler.py:51-53 | the inline texts are empty exactly when every script has a `src` |
| Crawling.InlineTextsSnoc | apifinder/crawler.py:51-53 | one more script adds its text exactly when it has no `src` |
| Crawling.InlineScript | apifinder/crawler.py:50-53 | the loop builds every inline script text followed by `\n\n`, in order |
| Crawling.InlineStyle | apifinder/crawler.py:85-87 | the loop builds every style text followed by `\n\n`, in order |
| Crawling.InlineEntry | apifinder/crawler.py:55-56 | the inline key is present exactly when the inline text is non-empty, and then maps to it |
| Crawling.InlineScriptEntry | apifinder/crawler.py:50-56 | the inline entry is present exactly when some script has no `src`, and then holds all inline texts |
| Crawling.CollectedContents | apifinder/crawler.py:66-68 | a fetched URL is stored exactly when its fetch returned content, with that content; other entries stay |
| Crawling.CollectedSnoc | apifinder/crawler.py:66-68 | one more fetch stores its content exactly when there is content |
| Crawling.FetchExternal | apifinder/crawler.py:58-68 | the URLs fetched are the resolved references not seen before, each once, in order; they join the seen set; the contents hold each usable body |
| Crawling.UnseenStep | apifinder/crawler.py:62-64 | one more reference adds its resolution exactly when it resolves and is neither known nor already listed |
| Crawling.ResolvedSnoc | apifinder/crawler.py:61-62 | one more reference adds its resolution exactly when it resolves |
| Crawling.Crawler.GetScripts | apifinder/crawler.py:38-70 | empty result without a page; else each new external script URL is recorded and fetched once, even if that fetch fails, and the result holds the inline entry and each usable body |
| Crawling.Crawler.GetStylesheets | apifinder/crawler.py:72-104 | the same for `<style>` text and `<link rel="stylesheet">` references |

## Left out

- Fetching (`fetch_content`, apifinder/crawler.py:22-36) is network I/O. It is
  the parameter `fetch`. A failed request is `None`, and an empty body counts
  as no content. Session, headers, cookie, timeout, TLS and redirects are not
  modelled.
- HTML parsing with BeautifulSoup (apifinder/crawler.py:45-46, 79-84, 144-147)
  is a foreign library. It is the parameter `parse`, which returns the tags and
  attributes the source reads. A missing attribute is the empty string.
- Python regular expressions are not modelled. This covers the composite API
  pattern from `config.py`, the CSS `url(...)` pattern
  (apifinder/extractor.py:15) and the `\b` search
  (apifinder/extractor.py:84-85).
  - Matches arrive as `PatternMatch` records and captures as strings.
  - The word search is the parameter `wordMatch`.
  - With the project's composite pattern, the whole match still contains the
    `method:` key. Its stripped text is therefore never a bare verb
    (`ColonMatchIsNoVerb`), so the verb branch is proved only over abstract
    matches.
- `urllib.parse.urlparse` is reduced to `UrlSplit.Parse`:
  - a scheme of letters and scheme characters before the first `:`;
  - a netloc after `//` up to `/`, `?` or `#`;
  - a path up to `?` or `#`.

  Params, query, fragment, ports and the other special cases of the full
  parser are not modelled. In particular `urlparse` raises `ValueError`
  ("Invalid IPv6 URL") on a netloc with an unbalanced `[` or `]`; the model
  parses such a netloc like any other. That exception would escape from
  `process_url` (apifinder/utils.py:32) and `_process_api_url` and
  `extract_related_domains` (apifinder/processor.py:50, 68, 82), ending the
  run, whereas the model returns a value.
- Case conversion (`upper()`, `lower()`) is ASCII-only in the model. Python's
  full Unicode case mapping is not modelled.
- Console output (apifinder/utils.py:5-20), `display_results` and
  `save_results` (apifinder/processor.py:108-178) are output only. Note that
  `save_results` reads a nonexistent `self.subdomains`.
- `load_api_dictionary` (apifinder/utils.py:67-92) is file I/O. The extractor
  receives the dictionary as a sequence.
- `get_html_elements` (apifinder/crawler.py:106-135) is parsing glue.
  `ExtractApisFromHtmlElements` takes the (kind, value) pairs directly.
- The orchestration in `apifinder/core.py`, the command line in `APIFinder.py`
  and the configuration loading in `config.py` are not part of this model.
  Callers pass `max_depth` and `max_urls` as naturals; `core.py` can pass
  `None`.
- Processor.ResultProcessor.RemoveDuplicates: keeps `all_urls` as the same
  set. The source instead turns it into a list (apifinder/processor.py:106),
  after which a later `process_apis` would fail on `.add`.
- Crawling.Crawler.DeepCrawl: returns the visited set itself rather than
  `list(visited_urls)`, whose order Python leaves unspecified. The
  `all_links` list (apifinder/crawler.py:161, 184) is never read and is not
  kept. Queue depths are stated as non-decreasing between neighbours and
  within one level of the head (inside `QueueOk`), not as a separate
  postcondition. Completeness (every URL within `max_depth` visited) is
  promised only for a call that starts with nothing visited and stops below
  `max_urls`: URLs visited by an earlier call are not expanded again, so
  what lies only behind them is not reached, and a crawl stopped by the cap
  visits an unspecified breadth-first prefix.
- Processor.ResultProcessor.ExtractRelatedDomains: the order in which URLs
  are taken from `all_urls` is left open, as Python's set iteration order is.
  The contract fixes the key set, the prefixes and each list's contents, but
  not the order within a list.
- Extractor.APIExtractor.ExtractApisFromCss: a capture whose resolution fails
  is reported as a `url` finding without a value (`UnresolvedUrl`), matching
  the source's `("url", None)`.
- `None` for `html_content` is modelled as the empty string; both are falsy
  in the source.
