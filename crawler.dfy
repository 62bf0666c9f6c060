/**
 * The crawler of `apifinder/crawler.py`: the breadth-first `deep_crawl` with
 * its depth and count caps, `find_links`, and the inline-text and
 * external-resource bookkeeping of `get_scripts` and `get_stylesheets`.
 *
 * Fetching is the parameter `fetch(url)`: `None` is a failed request, and a
 * `Some("")` body counts as no content, as the source's `if not html_content`
 * does. Parsing is the parameter `parse(html)`, which yields the tags the
 * source asks BeautifulSoup for, as a `Markup` value.
 */
module Crawling {
  import opened Wrappers
  import opened Seqs
  import Utils

  /** A `<script>` tag: its `src` attribute ("" when absent) and its text. */
  datatype ScriptTag = ScriptTag(src: string, text: string)

  /**
   * What the source reads from a parsed page: the `<script>` tags, the
   * `href` of each `<link rel="stylesheet">` ("" when absent), the text of
   * each `<style>` tag and the `href` of each `<a>` tag ("" when absent).
   */
  datatype Markup = Markup(scripts: seq<ScriptTag>, stylesheetHrefs: seq<string>, styleTexts: seq<string>, anchorHrefs: seq<string>)

  /** A fetch that returned a non-empty body. */
  predicate Usable(content: Option<string>) {
    content.Some? && content.value != ""
  }

  /**
   * The page a `get_*`/`find_links` call works on: the given HTML when it is
   * non-empty, else the fetched body, else "" (the call then returns empty).
   */
  function PageContent(url: string, htmlContent: string, fetch: string -> Option<string>): (page: string)
    ensures htmlContent != "" ==> page == htmlContent
    ensures htmlContent == "" && Usable(fetch(url)) ==> page == fetch(url).value
    ensures htmlContent == "" && !Usable(fetch(url)) ==> page == ""
  {
    if htmlContent != "" then htmlContent
    else if Usable(fetch(url)) then fetch(url).value
    else ""
  }

  // ---------------------------------------------------------------- find_links

  /**
   * How a page resolves a tag attribute: an empty one is skipped, any
   * other goes through `process_url` against the page's URL.
   */
  function RefResolver(url: string): string -> Option<string> {
    ref => if ref == "" then None else Utils.ProcessUrl(url, ref)
  }

  /** The resolution of each reference that resolves, in order. */
  function Resolved(resolve: string -> Option<string>, refs: seq<string>): seq<string>
    decreases |refs|
  {
    if refs == [] then []
    else
      var last := resolve(refs[|refs| - 1]);
      Resolved(resolve, refs[..|refs| - 1]) + (if last.Some? then [last.value] else [])
  }

  /** Exactly the resolutions of the references are resolved. */
  lemma {:induction false} ResolvedMembers(resolve: string -> Option<string>, refs: seq<string>)
    ensures forall x :: x in Resolved(resolve, refs) ==> exists k :: 0 <= k < |refs| && resolve(refs[k]) == Some(x)
    ensures forall k :: 0 <= k < |refs| && resolve(refs[k]).Some? ==> resolve(refs[k]).value in Resolved(resolve, refs)
    decreases |refs|
  {
    if refs != [] {
      var prefix := refs[..|refs| - 1];
      ResolvedMembers(resolve, prefix);
      assert forall k :: 0 <= k < |prefix| ==> prefix[k] == refs[k];
    }
  }

  /** The elements of `s` not in `seen`, each once, in the order of their first occurrence. */
  function Unseen(s: seq<string>, seen: set<string>): (r: seq<string>)
    ensures NoDup(r)
    ensures forall x :: x in r ==> x in s && x !in seen
    ensures forall x :: x in s && x !in seen ==> x in r
  {
    DedupNoDup(Without(s, seen));
    DedupSameElements(Without(s, seen));
    WithoutElements(s, seen);
    Dedup(Without(s, seen))
  }

  /** The links `find_links` returns for a page: resolved hrefs, without repeats, in document order. */
  function LinksFrom(url: string, page: string, parse: string -> Markup): seq<string> {
    if page == "" then [] else Unseen(Resolved(RefResolver(url), parse(page).anchorHrefs), {})
  }

  /**
   * `find_links` on a page: no link twice, and a URL is a link exactly when
   * some non-empty href of the page resolves to it.
   */
  lemma {:induction false} LinksFromSpec(url: string, page: string, parse: string -> Markup)
    requires page != ""
    ensures NoDup(LinksFrom(url, page, parse))
    ensures var hrefs := parse(page).anchorHrefs;
            forall x :: x in LinksFrom(url, page, parse) <==>
              exists k :: 0 <= k < |hrefs| && hrefs[k] != "" && Utils.ProcessUrl(url, hrefs[k]) == Some(x)
  {
    var hrefs := parse(page).anchorHrefs;
    ResolvedMembers(RefResolver(url), hrefs);
    forall x
      ensures x in LinksFrom(url, page, parse) <==>
              exists k :: 0 <= k < |hrefs| && hrefs[k] != "" && Utils.ProcessUrl(url, hrefs[k]) == Some(x)
    {
      if x in LinksFrom(url, page, parse) {
        var k :| 0 <= k < |hrefs| && RefResolver(url)(hrefs[k]) == Some(x);
        assert hrefs[k] != "" && Utils.ProcessUrl(url, hrefs[k]) == Some(x);
      }
      if exists k :: 0 <= k < |hrefs| && hrefs[k] != "" && Utils.ProcessUrl(url, hrefs[k]) == Some(x) {
        var k :| 0 <= k < |hrefs| && hrefs[k] != "" && Utils.ProcessUrl(url, hrefs[k]) == Some(x);
        assert RefResolver(url)(hrefs[k]) == Some(x);
      }
    }
  }

  /** The links of the page at `url` as `deep_crawl` sees them: none when the fetch fails. */
  function LinksOf(fetch: string -> Option<string>, parse: string -> Markup, url: string): seq<string> {
    LinksFrom(url, PageContent(url, "", fetch), parse)
  }

  /** The link graph the crawl explores. */
  function LinkGraph(fetch: string -> Option<string>, parse: string -> Markup): string -> seq<string> {
    u => LinksOf(fetch, parse, u)
  }

  /** A page that fetches with content has, as its links in the graph, what `find_links` finds on its body. */
  lemma LinksOfFetched(fetch: string -> Option<string>, parse: string -> Markup, url: string)
    requires Usable(fetch(url))
    ensures LinkGraph(fetch, parse)(url) == LinksFrom(url, PageContent(url, fetch(url).value, fetch), parse)
  {
  }

  // --------------------------------------------------------------- deep_crawl

  /**
   * `u` is at depth `d` of the crawl from `start`: the start itself at depth
   * 1, or a link of a page at depth `d - 1`.
   */
  ghost predicate Reaches(links: string -> seq<string>, start: string, u: string, d: nat)
    decreases d
  {
    if d <= 1 then d == 1 && u == start
    else exists p :: Reaches(links, start, p, d - 1) && u in links(p)
  }

  /** `u` is at some depth from 1 to `maxDepth`. */
  ghost predicate ReachedWithin(links: string -> seq<string>, start: string, u: string, maxDepth: nat) {
    exists d :: 1 <= d <= maxDepth && Reaches(links, start, u, d)
  }

  /** A chain of pages, each a link of the one before. */
  ghost predicate IsLinkPath(links: string -> seq<string>, path: seq<string>) {
    forall i :: 0 <= i < |path| - 1 ==> path[i + 1] in links(path[i])
  }

  /** Depth `d` means a link path of `d` pages from the start. */
  lemma {:induction false} ReachesHasPath(links: string -> seq<string>, start: string, u: string, d: nat)
    requires Reaches(links, start, u, d)
    ensures exists path :: |path| == d && path[0] == start && path[d - 1] == u && IsLinkPath(links, path)
    decreases d
  {
    if d == 1 {
      assert [start][0] == start;
    } else {
      var p :| Reaches(links, start, p, d - 1) && u in links(p);
      ReachesHasPath(links, start, p, d - 1);
      var path :| |path| == d - 1 && path[0] == start && path[d - 2] == p && IsLinkPath(links, path);
      LinkPathSnoc(links, path, u);
      var longer := path + [u];
      assert longer[0] == start && longer[d - 1] == u;
    }
  }

  /** A link path extended by a link of its last page. */
  lemma {:induction false} LinkPathSnoc(links: string -> seq<string>, path: seq<string>, u: string)
    requires |path| >= 1 && IsLinkPath(links, path) && u in links(path[|path| - 1])
    ensures IsLinkPath(links, path + [u])
  {
    var longer := path + [u];
    forall i | 0 <= i < |longer| - 1
      ensures longer[i + 1] in links(longer[i])
    {
      if i < |path| - 1 {
        assert longer[i] == path[i] && longer[i + 1] == path[i + 1];
      }
    }
  }

  /** And a link path of `d` pages from the start ends at depth `d`. */
  lemma {:induction false} PathReaches(links: string -> seq<string>, path: seq<string>)
    requires |path| >= 1 && IsLinkPath(links, path)
    ensures Reaches(links, path[0], path[|path| - 1], |path|)
    decreases |path|
  {
    if |path| > 1 {
      var shorter := path[..|path| - 1];
      assert IsLinkPath(links, shorter) by {
        forall i | 0 <= i < |shorter| - 1
          ensures shorter[i + 1] in links(shorter[i])
        {
          assert path[i + 1] in links(path[i]);
        }
      }
      PathReaches(links, shorter);
      assert path[|path| - 1] in links(shorter[|shorter| - 1]);
    }
  }

  /** The URLs of the queue, in order. */
  function QueueUrls(queue: seq<(string, nat)>): (r: seq<string>)
    ensures |r| == |queue| && forall i :: 0 <= i < |queue| ==> r[i] == queue[i].0
  {
    seq(|queue|, i requires 0 <= i < |queue| => queue[i].0)
  }

  /** Each URL with the same depth. */
  function AtDepth(urls: seq<string>, depth: nat): (r: seq<(string, nat)>)
    ensures |r| == |urls| && forall i :: 0 <= i < |urls| ==> r[i] == (urls[i], depth)
  {
    seq(|urls|, i requires 0 <= i < |urls| => (urls[i], depth))
  }

  lemma QueueUrlsAppend(queue: seq<(string, nat)>, urls: seq<string>, depth: nat)
    ensures QueueUrls(queue + AtDepth(urls, depth)) == QueueUrls(queue) + urls
  {
  }

  lemma AtDepthSnoc(urls: seq<string>, x: string, depth: nat)
    ensures AtDepth(urls + [x], depth) == AtDepth(urls, depth) + [(x, depth)]
  {
  }

  /** One more element: it joins the unseen ones when it is new. */
  lemma UnseenSnoc(s: seq<string>, x: string, seen: set<string>)
    ensures Unseen(s + [x], seen) == if x !in seen && x !in Unseen(s, seen) then Unseen(s, seen) + [x] else Unseen(s, seen)
  {
    WithoutSnoc(s, x, seen);
    if x !in seen {
      DedupSnoc(Without(s, seen), x);
    } else {
      assert Without(s, seen) + [] == Without(s, seen);
    }
  }

  /**
   * The enqueueing loop of `deep_crawl`: each link that is neither visited
   * nor already queued is appended with the given depth.
   */
  method Enqueue(queue: seq<(string, nat)>, links: seq<string>, visited: set<string>, depth: nat)
    returns (queue': seq<(string, nat)>)
    ensures queue' == queue + AtDepth(Unseen(links, visited + Elements(QueueUrls(queue))), depth)
  {
    ghost var excluded := visited + Elements(QueueUrls(queue));
    queue' := queue;
    for k := 0 to |links|
      invariant queue' == queue + AtDepth(Unseen(links[..k], excluded), depth)
    {
      var link := links[k];
      EnqueueStep(queue, queue', links, k, visited, depth);
      if link !in visited && link !in QueueUrls(queue') {
        queue' := queue' + [(link, depth)];
      }
    }
    assert links[..|links|] == links;
  }

  /** One turn of the loop of `Enqueue`: the test on the queue so far is the test of `Unseen`. */
  lemma {:induction false} EnqueueStep(queue: seq<(string, nat)>, queue': seq<(string, nat)>, links: seq<string>, k: nat,
                    visited: set<string>, depth: nat)
    requires k < |links|
    requires queue' == queue + AtDepth(Unseen(links[..k], visited + Elements(QueueUrls(queue))), depth)
    ensures var excluded := visited + Elements(QueueUrls(queue));
            var link := links[k];
            (if link !in visited && link !in QueueUrls(queue') then queue' + [(link, depth)] else queue')
            == queue + AtDepth(Unseen(links[..k + 1], excluded), depth)
  {
    var excluded := visited + Elements(QueueUrls(queue));
    var link := links[k];
    var unseen := Unseen(links[..k], excluded);
    assert Unseen(links[..k + 1], excluded) == Unseen(links[..k] + [link], excluded) by {
      assert links[..k + 1] == links[..k] + [link];
    }
    UnseenSnoc(links[..k], link, excluded);
    QueueUrlsAppend(queue, unseen, depth);
    assert (link !in visited && link !in QueueUrls(queue')) == (link !in excluded && link !in unseen);
    if link !in excluded && link !in unseen {
      AtDepthSnoc(unseen, link, depth);
      AppendAssoc(queue, AtDepth(unseen, depth), [(link, depth)]);
    }
  }

  /**
   * What `deep_crawl` keeps true of its queue: every entry is at its depth
   * from the start, depths never decrease along the queue and differ by at
   * most one, no URL is queued twice, and only a start URL visited before
   * the call can be both queued and visited.
   */
  ghost predicate QueueOk(links: string -> seq<string>, start: string, queue: seq<(string, nat)>, visited: set<string>, visited0: set<string>) {
    && (forall i :: 0 <= i < |queue| ==> Reaches(links, start, queue[i].0, queue[i].1))
    && (forall i, j :: 0 <= i <= j < |queue| ==> queue[i].1 <= queue[j].1 <= queue[i].1 + 1)
    && NoDup(QueueUrls(queue))
    && (forall i :: 0 <= i < |queue| && queue[i].0 in visited ==> i == 0 && queue[i].0 in visited0)
  }

  /** Popping the head keeps the queue well formed. */
  lemma {:induction false} QueueOkTail(links: string -> seq<string>, start: string, queue: seq<(string, nat)>, visited: set<string>, visited0: set<string>)
    requires queue != [] && QueueOk(links, start, queue, visited, visited0)
    ensures QueueOk(links, start, queue[1..], visited, visited0)
    ensures QueueOk(links, start, queue[1..], visited + {queue[0].0}, visited0)
    ensures forall i :: 0 <= i < |queue| - 1 ==> queue[1..][i].0 !in visited + {queue[0].0}
  {
    var rest := queue[1..];
    assert QueueUrls(rest) == QueueUrls(queue)[1..];
    forall i | 0 <= i < |rest|
      ensures rest[i].0 !in visited + {queue[0].0}
    {
      assert rest[i] == queue[i + 1];
      assert QueueUrls(queue)[0] == queue[0].0 && QueueUrls(queue)[i + 1] == queue[i + 1].0;
    }
  }

  /**
   * Expanding the popped head at `depth` with its fresh links keeps the
   * queue well formed.
   */
  lemma {:induction false} QueueOkExpand(links: string -> seq<string>, start: string, url: string, depth: nat,
                                         rest: seq<(string, nat)>, newUrls: seq<string>, visited: set<string>, visited0: set<string>)
    requires Reaches(links, start, url, depth)
    requires QueueOk(links, start, rest, visited, visited0) && url in visited
    requires forall i :: 0 <= i < |rest| ==> depth <= rest[i].1 <= depth + 1
    requires forall i :: 0 <= i < |rest| ==> rest[i].0 !in visited
    requires NoDup(newUrls)
    requires forall x :: x in newUrls ==> x in links(url) && x !in visited && x !in QueueUrls(rest)
    ensures QueueOk(links, start, rest + AtDepth(newUrls, depth + 1), visited, visited0)
  {
    var q := rest + AtDepth(newUrls, depth + 1);
    forall i | 0 <= i < |q|
      ensures Reaches(links, start, q[i].0, q[i].1)
    {
      if i >= |rest| {
        assert q[i] == (newUrls[i - |rest|], depth + 1);
        assert newUrls[i - |rest|] in links(url);
      }
    }
    forall i, j | 0 <= i <= j < |q|
      ensures q[i].1 <= q[j].1 <= q[i].1 + 1
    {
      if j >= |rest| && i < |rest| {
        assert q[i] == rest[i];
      }
    }
    QueueUrlsAppend(rest, newUrls, depth + 1);
    NoDupAppend(QueueUrls(rest), newUrls);
    forall i | 0 <= i < |q|
      ensures q[i].0 !in visited
    {
      if i >= |rest| {
        assert q[i].0 == newUrls[i - |rest|];
      }
    }
  }

  /**
   * What `deep_crawl` keeps true from one iteration to the next: the
   * visited set only grows, stays within the cap once it has grown, holds
   * only pages within `maxDepth` of the start besides those visited before,
   * and the queue is well formed.
   */
  ghost predicate CrawlOk(links: string -> seq<string>, start: string, maxDepth: nat, maxUrls: nat,
                          queue: seq<(string, nat)>, visited: set<string>, visited0: set<string>) {
    && visited0 <= visited
    && (visited == visited0 || |visited| <= maxUrls)
    && (forall u :: u in visited && u !in visited0 ==> ReachedWithin(links, start, u, maxDepth))
    && QueueOk(links, start, queue, visited, visited0)
  }

  /** The crawl starts consistent, with the start URL alone in the queue at depth 1. */
  lemma CrawlStart(links: string -> seq<string>, start: string, maxDepth: nat, maxUrls: nat, visited0: set<string>)
    ensures CrawlOk(links, start, maxDepth, maxUrls, [(start, 1)], visited0, visited0)
  {
    assert QueueUrls([(start, 1)]) == [start];
  }

  /** Dropping a head that is visited or too deep keeps the crawl consistent. */
  lemma CrawlSkip(links: string -> seq<string>, start: string, maxDepth: nat, maxUrls: nat,
                  queue: seq<(string, nat)>, visited: set<string>, visited0: set<string>)
    requires queue != [] && CrawlOk(links, start, maxDepth, maxUrls, queue, visited, visited0)
    ensures CrawlOk(links, start, maxDepth, maxUrls, queue[1..], visited, visited0)
  {
    QueueOkTail(links, start, queue, visited, visited0);
  }

  /**
   * Visiting a head that is new and shallow enough, below the cap, keeps the
   * crawl consistent; the rest of the queue then lies at the head's depth or
   * one below it, and none of it is visited.
   */
  lemma CrawlVisit(links: string -> seq<string>, start: string, maxDepth: nat, maxUrls: nat,
                   queue: seq<(string, nat)>, visited: set<string>, visited0: set<string>)
    requires queue != [] && CrawlOk(links, start, maxDepth, maxUrls, queue, visited, visited0)
    requires queue[0].0 !in visited && queue[0].1 <= maxDepth && |visited| < maxUrls
    ensures CrawlOk(links, start, maxDepth, maxUrls, queue[1..], visited + {queue[0].0}, visited0)
    ensures Reaches(links, start, queue[0].0, queue[0].1)
    ensures forall i :: 0 <= i < |queue| - 1 ==> queue[0].1 <= queue[1..][i].1 <= queue[0].1 + 1
    ensures forall i :: 0 <= i < |queue| - 1 ==> queue[1..][i].0 !in visited + {queue[0].0}
  {
    QueueOkTail(links, start, queue, visited, visited0);
    assert Reaches(links, start, queue[0].0, queue[0].1);
  }

  /** Appending the fresh links of a visited page keeps the crawl consistent. */
  lemma CrawlExpand(links: string -> seq<string>, start: string, maxDepth: nat, maxUrls: nat,
                    url: string, depth: nat, pageLinks: seq<string>, queue: seq<(string, nat)>, visited: set<string>, visited0: set<string>)
    requires CrawlOk(links, start, maxDepth, maxUrls, queue, visited, visited0)
    requires Reaches(links, start, url, depth) && url in visited && pageLinks == links(url)
    requires forall i :: 0 <= i < |queue| ==> depth <= queue[i].1 <= depth + 1
    requires forall i :: 0 <= i < |queue| ==> queue[i].0 !in visited
    ensures CrawlOk(links, start, maxDepth, maxUrls,
                    queue + AtDepth(Unseen(pageLinks, visited + Elements(QueueUrls(queue))), depth + 1), visited, visited0)
  {
    var newUrls := Unseen(pageLinks, visited + Elements(QueueUrls(queue)));
    QueueOkExpand(links, start, url, depth, queue, newUrls, visited, visited0);
  }

  /** A page whose fetch gives no content contributes nothing to the queue. */
  lemma FailedFetchAddsNothing(fetch: string -> Option<string>, parse: string -> Markup, url: string, seen: set<string>, depth: nat)
    requires !Usable(fetch(url))
    ensures LinkGraph(fetch, parse)(url) == []
    ensures AtDepth(Unseen(LinkGraph(fetch, parse)(url), seen), depth) == []
  {
  }

  /**
   * `l` is accounted for at depth `bound`: visited before the call, visited
   * by it at depth `bound` or less, or queued at depth `bound` or less.
   */
  ghost predicate Covered(l: string, bound: nat, queue: seq<(string, nat)>, visited0: set<string>, depthOf: map<string, nat>) {
    || l in visited0
    || (l in depthOf && depthOf[l] <= bound)
    || exists i :: 0 <= i < |queue| && queue[i].0 == l && queue[i].1 <= bound
  }

  /**
   * The breadth-first frontier of `deep_crawl`: `depthOf` holds the depth at
   * which each URL of this call was visited, none deeper than anything still
   * queued; the start is accounted for at depth 1; and every link of a page
   * visited above `maxDepth` is accounted for one level below that page.
   */
  ghost predicate Frontier(links: string -> seq<string>, start: string, maxDepth: nat, queue: seq<(string, nat)>,
                           visited: set<string>, visited0: set<string>, depthOf: map<string, nat>) {
    && depthOf.Keys == visited - visited0
    && (forall x, i :: x in depthOf && 0 <= i < |queue| ==> depthOf[x] <= queue[i].1)
    && (1 <= maxDepth && start !in visited0 ==> Covered(start, 1, queue, visited0, depthOf))
    && (forall p, l :: p in depthOf && depthOf[p] < maxDepth && l in links(p) ==>
          Covered(l, depthOf[p] + 1, queue, visited0, depthOf))
  }

  /** The start stays queued alone, with nothing visited, until it is visited. */
  predicate StartOk(start: string, maxDepth: nat, maxUrls: nat, queue: seq<(string, nat)>,
                    visited: set<string>, visited0: set<string>) {
    start !in visited0 && 1 <= maxDepth && |visited0| < maxUrls ==>
      start in visited || (queue == [(start, 1)] && visited == visited0)
  }

  /** The whole loop invariant of `deep_crawl`. */
  ghost predicate CrawlInv(links: string -> seq<string>, start: string, maxDepth: nat, maxUrls: nat,
                           queue: seq<(string, nat)>, visited: set<string>, visited0: set<string>, depthOf: map<string, nat>) {
    && CrawlOk(links, start, maxDepth, maxUrls, queue, visited, visited0)
    && Frontier(links, start, maxDepth, queue, visited, visited0, depthOf)
    && StartOk(start, maxDepth, maxUrls, queue, visited, visited0)
  }

  lemma CrawlInvStart(links: string -> seq<string>, start: string, maxDepth: nat, maxUrls: nat, visited0: set<string>)
    ensures CrawlInv(links, start, maxDepth, maxUrls, [(start, 1)], visited0, visited0, map[])
  {
    CrawlStart(links, start, maxDepth, maxUrls, visited0);
    assert [(start, 1)][0] == (start, 1);
  }

  /** An entry dropped because it is visited or too deep was not what kept `l` accounted for. */
  lemma CoveredTail(l: string, bound: nat, maxDepth: nat, queue: seq<(string, nat)>, visited: set<string>,
                    visited0: set<string>, depthOf: map<string, nat>)
    requires queue != [] && Covered(l, bound, queue, visited0, depthOf) && bound <= maxDepth
    requires queue[0].0 in visited ==> queue[0].0 in visited0
    requires queue[0].0 in visited || queue[0].1 > maxDepth
    ensures Covered(l, bound, queue[1..], visited0, depthOf)
  {
    if l !in visited0 && !(l in depthOf && depthOf[l] <= bound) {
      var i :| 0 <= i < |queue| && queue[i].0 == l && queue[i].1 <= bound;
      assert i != 0;
      assert queue[1..][i - 1] == queue[i];
    }
  }

  /** Dropping the head keeps the whole invariant. */
  lemma CrawlInvSkip(links: string -> seq<string>, start: string, maxDepth: nat, maxUrls: nat,
                     queue: seq<(string, nat)>, visited: set<string>, visited0: set<string>, depthOf: map<string, nat>)
    requires queue != [] && CrawlInv(links, start, maxDepth, maxUrls, queue, visited, visited0, depthOf)
    requires queue[0].0 in visited || queue[0].1 > maxDepth
    ensures CrawlInv(links, start, maxDepth, maxUrls, queue[1..], visited, visited0, depthOf)
  {
    CrawlSkip(links, start, maxDepth, maxUrls, queue, visited, visited0);
    assert queue[0].0 in visited ==> queue[0].0 in visited0;
    if 1 <= maxDepth && start !in visited0 {
      CoveredTail(start, 1, maxDepth, queue, visited, visited0, depthOf);
    }
    forall p, l | p in depthOf && depthOf[p] < maxDepth && l in links(p)
      ensures Covered(l, depthOf[p] + 1, queue[1..], visited0, depthOf)
    {
      CoveredTail(l, depthOf[p] + 1, maxDepth, queue, visited, visited0, depthOf);
    }
    forall x, i | x in depthOf && 0 <= i < |queue| - 1
      ensures depthOf[x] <= queue[1..][i].1
    {
      assert queue[1..][i] == queue[i + 1];
    }
  }

  /** Visiting the head keeps everything accounted for that was before. */
  lemma CoveredVisit(l: string, bound: nat, queue: seq<(string, nat)>, tail: seq<(string, nat)>,
                     visited0: set<string>, depthOf: map<string, nat>)
    requires queue != [] && queue[0].0 !in depthOf && Covered(l, bound, queue, visited0, depthOf)
    ensures Covered(l, bound, queue[1..] + tail, visited0, depthOf[queue[0].0 := queue[0].1])
  {
    var q := queue[1..] + tail;
    if l !in visited0 && !(l in depthOf && depthOf[l] <= bound) {
      var i :| 0 <= i < |queue| && queue[i].0 == l && queue[i].1 <= bound;
      if i > 0 {
        assert q[i - 1] == queue[i];
      }
    }
  }

  /** After a visit at `depth`, every link of the page is accounted for one level below. */
  lemma LinkCovered(links: string -> seq<string>, url: string, depth: nat, rest: seq<(string, nat)>,
                    visited: set<string>, visited0: set<string>, depthOf: map<string, nat>, l: string)
    requires l in links(url)
    requires depthOf.Keys == visited - visited0
    requires forall x :: x in depthOf ==> depthOf[x] <= depth
    requires forall j :: 0 <= j < |rest| ==> rest[j].1 <= depth + 1
    ensures Covered(l, depth + 1, rest + AtDepth(Unseen(links(url), visited + {url} + Elements(QueueUrls(rest))), depth + 1),
                    visited0, depthOf[url := depth])
  {
    var newLinks := Unseen(links(url), visited + {url} + Elements(QueueUrls(rest)));
    var q := rest + AtDepth(newLinks, depth + 1);
    if l in visited + {url} {
    } else if l in Elements(QueueUrls(rest)) {
      var j :| 0 <= j < |QueueUrls(rest)| && QueueUrls(rest)[j] == l;
      assert q[j] == rest[j];
    } else {
      assert l in newLinks;
      var k :| 0 <= k < |newLinks| && newLinks[k] == l;
      assert q[|rest| + k] == (l, depth + 1);
    }
  }

  /** Visiting the head at `depth` and appending its fresh links keeps the frontier. */
  lemma {:induction false} FrontierVisit(links: string -> seq<string>, start: string, maxDepth: nat,
                                         queue: seq<(string, nat)>, visited: set<string>, visited0: set<string>,
                                         depthOf: map<string, nat>, url: string, depth: nat, rest: seq<(string, nat)>)
    requires queue != [] && queue[0].0 == url && queue[0].1 == depth && rest == queue[1..]
    requires url !in visited && visited0 <= visited
    requires forall j :: 0 <= j < |queue| ==> depth <= queue[j].1 <= depth + 1
    requires Frontier(links, start, maxDepth, queue, visited, visited0, depthOf)
    ensures Frontier(links, start, maxDepth, rest + AtDepth(Unseen(links(url), visited + {url} + Elements(QueueUrls(rest))), depth + 1),
                     visited + {url}, visited0, depthOf[url := depth])
  {
    var tail := AtDepth(Unseen(links(url), visited + {url} + Elements(QueueUrls(rest))), depth + 1);
    var q := rest + tail;
    var d := depthOf[url := depth];
    assert forall x :: x in depthOf ==> depthOf[x] <= depth by {
      forall x | x in depthOf
        ensures depthOf[x] <= depth
      {
        assert depthOf[x] <= queue[0].1;
      }
    }
    forall x, i | x in d && 0 <= i < |q|
      ensures d[x] <= q[i].1
    {
      if i < |rest| {
        assert q[i] == queue[i + 1];
      }
    }
    if 1 <= maxDepth && start !in visited0 {
      CoveredVisit(start, 1, queue, tail, visited0, depthOf);
    }
    forall p, l | p in d && d[p] < maxDepth && l in links(p)
      ensures Covered(l, d[p] + 1, q, visited0, d)
    {
      if p == url {
        forall j | 0 <= j < |rest|
          ensures rest[j].1 <= depth + 1
        {
          assert rest[j] == queue[j + 1];
        }
        LinkCovered(links, url, depth, rest, visited, visited0, depthOf, l);
      } else {
        CoveredVisit(l, depthOf[p] + 1, queue, tail, visited0, depthOf);
      }
    }
  }

  /** Visiting the head and appending its fresh links keeps the whole invariant. */
  lemma CrawlInvVisit(links: string -> seq<string>, start: string, maxDepth: nat, maxUrls: nat,
                      queue: seq<(string, nat)>, visited: set<string>, visited0: set<string>, depthOf: map<string, nat>,
                      url: string, depth: nat, rest: seq<(string, nat)>)
    requires queue != [] && queue[0].0 == url && queue[0].1 == depth && rest == queue[1..]
    requires url !in visited && depth <= maxDepth && |visited| < maxUrls
    requires CrawlInv(links, start, maxDepth, maxUrls, queue, visited, visited0, depthOf)
    ensures CrawlInv(links, start, maxDepth, maxUrls,
                     rest + AtDepth(Unseen(links(url), visited + {url} + Elements(QueueUrls(rest))), depth + 1),
                     visited + {url}, visited0, depthOf[url := depth])
  {
    CrawlVisit(links, start, maxDepth, maxUrls, queue, visited, visited0);
    CrawlExpand(links, start, maxDepth, maxUrls, url, depth, links(url), rest, visited + {url}, visited0);
    forall j | 0 <= j < |queue|
      ensures depth <= queue[j].1 <= depth + 1
    {
    }
    FrontierVisit(links, start, maxDepth, queue, visited, visited0, depthOf, url, depth, rest);
    if start !in visited0 && 1 <= maxDepth && |visited0| < maxUrls && start !in visited {
      assert queue[0] == (start, 1);
    }
  }

  /**
   * With nothing queued, every URL reached at depth `d` within `maxDepth`
   * was visited by this call at depth `d` or less.
   */
  lemma {:induction false} ReachedIsVisited(links: string -> seq<string>, start: string, maxDepth: nat,
                                            visited: set<string>, depthOf: map<string, nat>, u: string, d: nat)
    requires Frontier(links, start, maxDepth, [], visited, {}, depthOf)
    requires 1 <= d <= maxDepth && Reaches(links, start, u, d)
    ensures u in depthOf && depthOf[u] <= d
    decreases d
  {
    if d > 1 {
      var p :| Reaches(links, start, p, d - 1) && u in links(p);
      ReachedIsVisited(links, start, maxDepth, visited, depthOf, p, d - 1);
      assert Covered(u, depthOf[p] + 1, [], {}, depthOf);
    }
  }

  /**
   * When the loop of `deep_crawl` stops: the start is visited if the call
   * could visit anything, and a crawl from nothing visited that stopped
   * below the cap visited every URL within `maxDepth` of the start.
   */
  lemma CrawlEnd(links: string -> seq<string>, start: string, maxDepth: nat, maxUrls: nat,
                 queue: seq<(string, nat)>, visited: set<string>, visited0: set<string>, depthOf: map<string, nat>)
    requires CrawlInv(links, start, maxDepth, maxUrls, queue, visited, visited0, depthOf)
    requires queue == [] || |visited| >= maxUrls
    ensures start !in visited0 && 1 <= maxDepth && |visited0| < maxUrls ==> start in visited
    ensures visited0 == {} && |visited| < maxUrls ==>
              forall u :: ReachedWithin(links, start, u, maxDepth) ==> u in visited
  {
    if visited0 == {} && |visited| < maxUrls {
      forall u | ReachedWithin(links, start, u, maxDepth)
        ensures u in visited
      {
        var d :| 1 <= d <= maxDepth && Reaches(links, start, u, d);
        ReachedIsVisited(links, start, maxDepth, visited, depthOf, u, d);
      }
    }
  }

  // ------------------------------------------------------ get_scripts/get_stylesheets

  /** Each block followed by a blank line, all concatenated. */
  function Blocks(texts: seq<string>): (r: string)
    ensures r == "" <==> texts == []
    decreases |texts|
  {
    if texts == [] then ""
    else Blocks(texts[..|texts| - 1]) + texts[|texts| - 1] + "\n\n"
  }

  /** The texts of the scripts without a `src`, in order. */
  function InlineTexts(scripts: seq<ScriptTag>): (r: seq<string>)
    ensures |r| <= |scripts|
    ensures r == [] <==> forall k :: 0 <= k < |scripts| ==> scripts[k].src != ""
    decreases |scripts|
  {
    if scripts == [] then []
    else
      var last := scripts[|scripts| - 1];
      InlineTexts(scripts[..|scripts| - 1]) + (if last.src == "" then [last.text] else [])
  }

  lemma BlocksSnoc(texts: seq<string>, t: string)
    ensures Blocks(texts + [t]) == Blocks(texts) + t + "\n\n"
  {
    assert (texts + [t])[..|texts|] == texts;
  }

  lemma InlineTextsSnoc(scripts: seq<ScriptTag>, i: nat)
    requires i < |scripts|
    ensures InlineTexts(scripts[..i + 1])
            == InlineTexts(scripts[..i]) + (if scripts[i].src == "" then [scripts[i].text] else [])
  {
    assert scripts[..i + 1][..i] == scripts[..i];
  }

  /** The `src` of every script, "" for the inline ones. */
  function Sources(scripts: seq<ScriptTag>): (r: seq<string>)
    ensures |r| == |scripts| && forall i :: 0 <= i < |scripts| ==> r[i] == scripts[i].src
  {
    seq(|scripts|, i requires 0 <= i < |scripts| => scripts[i].src)
  }

  /** The inline-script loop of `get_scripts`: each script without a `src` adds its text and a blank line. */
  method InlineScript(scripts: seq<ScriptTag>) returns (inlineScript: string)
    ensures inlineScript == Blocks(InlineTexts(scripts))
  {
    inlineScript := "";
    for i := 0 to |scripts|
      invariant inlineScript == Blocks(InlineTexts(scripts[..i]))
    {
      InlineTextsSnoc(scripts, i);
      if scripts[i].src == "" {
        BlocksSnoc(InlineTexts(scripts[..i]), scripts[i].text);
        inlineScript := inlineScript + scripts[i].text + "\n\n";
      } else {
        assert InlineTexts(scripts[..i]) + [] == InlineTexts(scripts[..i]);
      }
    }
    assert scripts[..|scripts|] == scripts;
  }

  /** The inline-style loop of `get_stylesheets`: every `<style>` text adds itself and a blank line. */
  method InlineStyle(styleTags: seq<string>) returns (inlineStyle: string)
    ensures inlineStyle == Blocks(styleTags)
  {
    inlineStyle := "";
    for i := 0 to |styleTags|
      invariant inlineStyle == Blocks(styleTags[..i])
    {
      assert styleTags[..i + 1] == styleTags[..i] + [styleTags[i]];
      BlocksSnoc(styleTags[..i], styleTags[i]);
      inlineStyle := inlineStyle + styleTags[i] + "\n\n";
    }
    assert styleTags[..|styleTags|] == styleTags;
  }

  /** The inline entry of a result map: present only for non-empty text. */
  function InlineEntry(key: string, text: string): (m: map<string, string>)
    ensures key in m <==> text != ""
    ensures m.Keys <= {key} && (key in m ==> m[key] == text)
  {
    if text != "" then map[key := text] else map[]
  }

  /** `m` with the body of every URL whose fetch gives content, in order. */
  function Collected(urls: seq<string>, fetch: string -> Option<string>, m: map<string, string>): map<string, string>
    decreases |urls|
  {
    if urls == [] then m
    else
      var u := urls[|urls| - 1];
      var prev := Collected(urls[..|urls| - 1], fetch, m);
      if Usable(fetch(u)) then prev[u := fetch(u).value] else prev
  }

  /**
   * The collected map holds the body of every URL whose fetch gives
   * content, and otherwise exactly what `m` held.
   */
  lemma {:induction false} CollectedContents(urls: seq<string>, fetch: string -> Option<string>, m: map<string, string>)
    ensures forall k :: k in Collected(urls, fetch, m) ==> k in m || (k in urls && Usable(fetch(k)))
    ensures forall k :: k in urls && Usable(fetch(k)) ==> k in Collected(urls, fetch, m) && Collected(urls, fetch, m)[k] == fetch(k).value
    ensures forall k :: k in m && !(k in urls && Usable(fetch(k))) ==> k in Collected(urls, fetch, m) && Collected(urls, fetch, m)[k] == m[k]
    decreases |urls|
  {
    if urls != [] {
      var prefix := urls[..|urls| - 1];
      CollectedContents(prefix, fetch, m);
      assert forall k :: k in urls ==> k in prefix || k == urls[|urls| - 1];
      assert forall k :: k in prefix ==> k in urls;
    }
  }

  lemma CollectedSnoc(urls: seq<string>, u: string, fetch: string -> Option<string>, m: map<string, string>)
    ensures Collected(urls + [u], fetch, m)
            == if Usable(fetch(u)) then Collected(urls, fetch, m)[u := fetch(u).value] else Collected(urls, fetch, m)
  {
    assert (urls + [u])[..|urls|] == urls;
  }

  /**
   * The result of `get_scripts`/`get_stylesheets` for a page: the inline
   * entry under `inlineKey`, then the body of every newly seen external URL.
   */
  function Contents(inlineKey: string, inlineText: string, newUrls: seq<string>, fetch: string -> Option<string>): map<string, string> {
    Collected(newUrls, fetch, InlineEntry(inlineKey, inlineText))
  }

  /**
   * The inline entry of `get_scripts`: present exactly when some script has
   * no `src` (unless an external script URL happens to equal the key), and
   * then it is every inline text followed by a blank line.
   */
  lemma {:induction false} InlineScriptEntry(key: string, scripts: seq<ScriptTag>, newUrls: seq<string>, fetch: string -> Option<string>)
    requires key !in newUrls
    ensures var m := Contents(key, Blocks(InlineTexts(scripts)), newUrls, fetch);
            && (key in m <==> exists k :: 0 <= k < |scripts| && scripts[k].src == "")
            && (key in m ==> m[key] == Blocks(InlineTexts(scripts)))
  {
    CollectedContents(newUrls, fetch, InlineEntry(key, Blocks(InlineTexts(scripts))));
  }

  /**
   * The external-resource loop shared by `get_scripts` and
   * `get_stylesheets`: each non-empty reference is resolved, and a
   * resolution not seen before is recorded and fetched, its body stored when
   * the fetch gives content. `fetched` lists the URLs fetched, in order,
   * and `seen` is `known` with them added.
   */
  method FetchExternal(url: string, refs: seq<string>, known: set<string>, fetch: string -> Option<string>, contents0: map<string, string>)
    returns (fetched: seq<string>, seen: set<string>, contents: map<string, string>)
    ensures fetched == Unseen(Resolved(RefResolver(url), refs), known)
    ensures seen == known + Elements(fetched)
    ensures contents == Collected(fetched, fetch, contents0)
  {
    fetched, contents := [], contents0;
    seen := known;
    for i := 0 to |refs|
      invariant fetched == Dedup(Without(Resolved(RefResolver(url), refs[..i]), known))
      invariant forall x :: x in seen <==> x in known || x in fetched
      invariant contents == Collected(fetched, fetch, contents0)
    {
      var ref := refs[i];
      UnseenStep(RefResolver(url), refs, i, known);
      if ref != "" {
        var resolved := Utils.ProcessUrl(url, ref);
        assert resolved == RefResolver(url)(ref);
        if resolved.Some? && resolved.value !in seen {
          var u := resolved.value;
          CollectedSnoc(fetched, u, fetch, contents0);
          seen := seen + {u};
          fetched := fetched + [u];
          var body := fetch(u);
          if Usable(body) {
            contents := contents[u := body.value];
          }
        }
      }
    }
    assert refs[..|refs|] == refs;
    assert seen == known + Elements(fetched);
  }

  /** One more reference: its resolution joins the unseen ones when it is new. */
  lemma {:induction false} UnseenStep(resolve: string -> Option<string>, refs: seq<string>, i: nat, known: set<string>)
    requires i < |refs|
    ensures var prev := Dedup(Without(Resolved(resolve, refs[..i]), known));
            var r := resolve(refs[i]);
            Dedup(Without(Resolved(resolve, refs[..i + 1]), known))
            == if r.Some? && r.value !in known && r.value !in prev then prev + [r.value] else prev
  {
    var s := Resolved(resolve, refs[..i]);
    var r := resolve(refs[i]);
    ResolvedSnoc(resolve, refs, i);
    if r.Some? {
      WithoutSnoc(s, r.value, known);
      if r.value !in known {
        DedupSnoc(Without(s, known), r.value);
      } else {
        assert Without(s, known) + [] == Without(s, known);
      }
    } else {
      assert s + [] == s;
    }
  }

  lemma ResolvedSnoc(resolve: string -> Option<string>, refs: seq<string>, i: nat)
    requires i < |refs|
    ensures Resolved(resolve, refs[..i + 1])
            == Resolved(resolve, refs[..i]) + (if resolve(refs[i]).Some? then [resolve(refs[i]).value] else [])
  {
    assert refs[..i + 1][..i] == refs[..i];
  }

  // ------------------------------------------------------------------ the class

  /**
   * The visited set and the two external-resource sets, which persist for
   * the life of the crawler. `scriptFetches` and `styleFetches` log the
   * external URLs fetched, in order.
   */
  class Crawler {
    var visitedUrls: set<string>
    var externalScripts: set<string>
    var externalStylesheets: set<string>
    ghost var scriptFetches: seq<string>
    ghost var styleFetches: seq<string>

    /** Every recorded external URL was fetched exactly once. */
    ghost predicate Valid()
      reads this
    {
      && NoDup(scriptFetches) && Elements(scriptFetches) == externalScripts
      && NoDup(styleFetches) && Elements(styleFetches) == externalStylesheets
    }

    constructor()
      ensures Valid()
      ensures visitedUrls == {} && externalScripts == {} && externalStylesheets == {}
    {
      visitedUrls := {};
      externalScripts := {};
      externalStylesheets := {};
      scriptFetches := [];
      styleFetches := [];
    }
    /**
     * `find_links`: the page's hrefs resolved against `url`, in document
     * order, each once; none when there is no page.
     */
    static method FindLinks(url: string, htmlContent: string, fetch: string -> Option<string>, parse: string -> Markup)
      returns (links: seq<string>)
      ensures links == LinksFrom(url, PageContent(url, htmlContent, fetch), parse)
    {
      var page := htmlContent;
      if page == "" {
        var body := fetch(url);
        if !Usable(body) {
          return [];
        }
        page := body.value;
      }
      var hrefs := parse(page).anchorHrefs;
      links := [];
      for i := 0 to |hrefs|
        invariant links == Dedup(Without(Resolved(RefResolver(url), hrefs[..i]), {}))
      {
        var href := hrefs[i];
        UnseenStep(RefResolver(url), hrefs, i, {});
        if href != "" {
          var fullUrl := Utils.ProcessUrl(url, href);
          assert fullUrl == RefResolver(url)(href);
          if fullUrl.Some? && fullUrl.value !in links {
            links := links + [fullUrl.value];
          }
        }
      }
      assert hrefs[..|hrefs|] == hrefs;
    }

    /**
     * `get_scripts`: the concatenated inline scripts under
     * `url + "#inline-script"`, then the body of every external script not
     * seen before by this crawler; those are recorded (and fetched) once.
     */
    method GetScripts(url: string, htmlContent: string, fetch: string -> Option<string>, parse: string -> Markup)
      returns (scriptContents: map<string, string>)
      requires Valid()
      modifies this
      ensures Valid()
      ensures visitedUrls == old(visitedUrls)
      ensures externalStylesheets == old(externalStylesheets) && styleFetches == old(styleFetches)
      ensures var page := PageContent(url, htmlContent, fetch);
              page == "" ==> scriptContents == map[] && externalScripts == old(externalScripts) && scriptFetches == old(scriptFetches)
      ensures var page := PageContent(url, htmlContent, fetch);
              var scripts := parse(page).scripts;
              var newUrls := Unseen(Resolved(RefResolver(url), Sources(scripts)), old(externalScripts));
              page != "" ==>
                && scriptFetches == old(scriptFetches) + newUrls
                && externalScripts == old(externalScripts) + Elements(newUrls)
                && scriptContents == Contents(url + "#inline-script", Blocks(InlineTexts(scripts)), newUrls, fetch)
    {
      var page := htmlContent;
      if page == "" {
        var body := fetch(url);
        if !Usable(body) {
          return map[];
        }
        page := body.value;
      }
      var scripts := parse(page).scripts;
      var inlineScript := InlineScript(scripts);
      scriptContents := map[];
      if inlineScript != "" {
        scriptContents := scriptContents[url + "#inline-script" := inlineScript];
      }
      var fetched;
      fetched, externalScripts, scriptContents := FetchExternal(url, Sources(scripts), externalScripts, fetch, scriptContents);
      NoDupAppend(scriptFetches, fetched);
      scriptFetches := scriptFetches + fetched;
    }

    /**
     * `get_stylesheets`: every `<style>` text concatenated under
     * `url + "#inline-style"`, then the body of every external stylesheet
     * not seen before by this crawler; those are recorded (and fetched) once.
     */
    method GetStylesheets(url: string, htmlContent: string, fetch: string -> Option<string>, parse: string -> Markup)
      returns (styleContents: map<string, string>)
      requires Valid()
      modifies this
      ensures Valid()
      ensures visitedUrls == old(visitedUrls)
      ensures externalScripts == old(externalScripts) && scriptFetches == old(scriptFetches)
      ensures var page := PageContent(url, htmlContent, fetch);
              page == "" ==> styleContents == map[] && externalStylesheets == old(externalStylesheets) && styleFetches == old(styleFetches)
      ensures var page := PageContent(url, htmlContent, fetch);
              var markup := parse(page);
              var newUrls := Unseen(Resolved(RefResolver(url), markup.stylesheetHrefs), old(externalStylesheets));
              page != "" ==>
                && styleFetches == old(styleFetches) + newUrls
                && externalStylesheets == old(externalStylesheets) + Elements(newUrls)
                && styleContents == Contents(url + "#inline-style", Blocks(markup.styleTexts), newUrls, fetch)
    {
      var page := htmlContent;
      if page == "" {
        var body := fetch(url);
        if !Usable(body) {
          return map[];
        }
        page := body.value;
      }
      var markup := parse(page);
      var inlineStyle := InlineStyle(markup.styleTexts);
      styleContents := map[];
      if inlineStyle != "" {
        styleContents := styleContents[url + "#inline-style" := inlineStyle];
      }
      var fetched;
      fetched, externalStylesheets, styleContents := FetchExternal(url, markup.stylesheetHrefs, externalStylesheets, fetch, styleContents);
      NoDupAppend(styleFetches, fetched);
      styleFetches := styleFetches + fetched;
    }

    /**
     * `deep_crawl`: a breadth-first crawl from `startUrl` through a FIFO
     * queue of (URL, depth) pairs. A URL already visited, or deeper than
     * `maxDepth`, is dropped; any other is marked visited and, when its
     * fetch gives a page, its links not yet visited or queued join the back
     * of the queue one level deeper. The crawl stops when the queue is
     * empty or `maxUrls` URLs are visited, and returns the visited set,
     * which persists across calls.
     */
    method DeepCrawl(startUrl: string, maxDepth: nat, maxUrls: nat, fetch: string -> Option<string>, parse: string -> Markup)
      returns (result: set<string>)
      modifies this
      ensures result == visitedUrls
      ensures old(visitedUrls) <= visitedUrls
      ensures visitedUrls == old(visitedUrls) || |visitedUrls| <= maxUrls
      ensures forall u :: u in visitedUrls && u !in old(visitedUrls) ==> ReachedWithin(LinkGraph(fetch, parse), startUrl, u, maxDepth)
      ensures startUrl !in old(visitedUrls) && 1 <= maxDepth && |old(visitedUrls)| < maxUrls ==> startUrl in visitedUrls
      ensures old(visitedUrls) == {} && |visitedUrls| < maxUrls ==>
                forall u :: ReachedWithin(LinkGraph(fetch, parse), startUrl, u, maxDepth) ==> u in visitedUrls
      ensures externalScripts == old(externalScripts) && externalStylesheets == old(externalStylesheets)
      ensures scriptFetches == old(scriptFetches) && styleFetches == old(styleFetches)
    {
      var queue: seq<(string, nat)> := [(startUrl, 1)];
      ghost var depthOf: map<string, nat> := map[];
      CrawlInvStart(LinkGraph(fetch, parse), startUrl, maxDepth, maxUrls, visitedUrls);
      while queue != [] && |visitedUrls| < maxUrls
        invariant CrawlInv(LinkGraph(fetch, parse), startUrl, maxDepth, maxUrls, queue, visitedUrls, old(visitedUrls), depthOf)
        invariant externalScripts == old(externalScripts) && externalStylesheets == old(externalStylesheets)
        invariant scriptFetches == old(scriptFetches) && styleFetches == old(styleFetches)
        decreases maxUrls - |visitedUrls|, |queue|
      {
        ghost var queue0 := queue;
        var url, depth := queue[0].0, queue[0].1;
        queue := queue[1..];
        if url in visitedUrls || depth > maxDepth {
          CrawlInvSkip(LinkGraph(fetch, parse), startUrl, maxDepth, maxUrls, queue0, visitedUrls, old(visitedUrls), depthOf);
        } else {
          CrawlInvVisit(LinkGraph(fetch, parse), startUrl, maxDepth, maxUrls, queue0, visitedUrls, old(visitedUrls), depthOf,
                        url, depth, queue);
          queue, visitedUrls := VisitHead(url, depth, queue, visitedUrls, fetch, parse);
          depthOf := depthOf[url := depth];
        }
      }
      CrawlEnd(LinkGraph(fetch, parse), startUrl, maxDepth, maxUrls, queue, visitedUrls, old(visitedUrls), depthOf);
      result := visitedUrls;
    }

    /**
     * One visit of `deep_crawl`, after the pop: `url` is marked visited
     * before its fetch; a fetch without content adds nothing to the queue;
     * otherwise the links `find_links` finds on the page that are neither
     * visited nor queued join the back, in order and each once, one level
     * deeper.
     */
    static method VisitHead(url: string, depth: nat, queue: seq<(string, nat)>, visited: set<string>,
                            fetch: string -> Option<string>, parse: string -> Markup)
      returns (queue': seq<(string, nat)>, visited': set<string>)
      ensures visited' == visited + {url}
      ensures !Usable(fetch(url)) ==> queue' == queue
      ensures queue' == queue + AtDepth(Unseen(LinkGraph(fetch, parse)(url), visited' + Elements(QueueUrls(queue))), depth + 1)
    {
      visited' := visited + {url};
      queue' := queue;
      var content := fetch(url);
      if Usable(content) {
        var pageLinks := FindLinks(url, content.value, fetch, parse);
        LinksOfFetched(fetch, parse, url);
        queue' := Enqueue(queue, pageLinks, visited', depth + 1);
      } else {
        FailedFetchAddsNothing(fetch, parse, url, visited' + Elements(QueueUrls(queue)), depth + 1);
        assert queue + [] == queue;
      }
    }
  }
}
