/**
 * The result processor of `apifinder/processor.py`: the eight verb buckets,
 * the set of all URLs, the related domains and the domain-to-URL map, with
 * the pending-method classification of `process_apis`, the absolutising rule
 * `_process_api_url`, `extract_related_domains` and `remove_duplicates`.
 */
module Processor {
  import opened Wrappers
  import opened Text
  import opened Seqs
  import UrlSplit
  import Utils
  import Extractor

  type Finding = Extractor.Finding

  const Unknown: string := "UNKNOWN_METHOD"

  /** The bucket names, in the order the buckets are created. */
  const BucketNames: seq<string> := ["GET", "POST", "PUT", "DELETE", "PATCH", "OPTIONS", "HEAD", Unknown]

  // --------------------------------------------------------- _process_api_url

  /**
   * Makes a URL absolute against the base's scheme and host only: a URL with
   * both a scheme and a host is kept, anything else is put under the base's
   * root. Unlike `process_url`, the base path plays no part.
   */
  function ProcessApiUrl(baseUrl: string, url: string): (r: Option<string>)
    ensures r.None? <==> url == "" || baseUrl == ""
    ensures r.Some? ==> EndsWith(r.value, url) && r.value != ""
  {
    if url == "" || baseUrl == "" then None
    else
      var parsedUrl := UrlSplit.Parse(url);
      var parsedBase := UrlSplit.Parse(baseUrl);
      if parsedUrl.scheme != "" && parsedUrl.netloc != "" then Some(url)
      else if StartsWith(url, "/") then Some(parsedBase.scheme + "://" + parsedBase.netloc + url)
      else Some(parsedBase.scheme + "://" + parsedBase.netloc + "/" + TrimStart(url, '/'))
  }

  /** A URL with a scheme and a host. */
  predicate IsAbsolute(url: string) {
    UrlSplit.Parse(url).scheme != "" && UrlSplit.Parse(url).netloc != ""
  }

  /**
   * The three outcomes of `_process_api_url` for a usable pair: an absolute
   * URL unchanged, a `/`-rooted one appended to `scheme://host`, and any
   * other appended to `scheme://host/` as it is, with no directory join.
   */
  lemma ProcessApiUrlCases(baseUrl: string, url: string)
    requires baseUrl != "" && url != ""
    ensures var b := UrlSplit.Parse(baseUrl);
            ProcessApiUrl(baseUrl, url) ==
              if IsAbsolute(url) then Some(url)
              else if url[0] == '/' then Some(b.scheme + "://" + b.netloc + url)
              else Some(b.scheme + "://" + b.netloc + "/" + url)
  {
    if !IsAbsolute(url) && url[0] != '/' {
      assert TrimStart(url, '/') == url;
      NotPrefixAt(url, "/", 0);
    }
  }

  /**
   * A relative URL lands on the base's scheme and host: parsing the result
   * gives back the base's scheme and host.
   */
  lemma {:induction false} ProcessApiUrlStaysOnBaseHost(baseUrl: string, url: string)
    requires url != "" && !IsAbsolute(url)
    requires UrlSplit.Parse(baseUrl).scheme != "" && UrlSplit.Parse(baseUrl).netloc != ""
    ensures ProcessApiUrl(baseUrl, url).Some?
    ensures UrlSplit.Parse(ProcessApiUrl(baseUrl, url).value).scheme == UrlSplit.Parse(baseUrl).scheme
    ensures UrlSplit.Parse(ProcessApiUrl(baseUrl, url).value).netloc == UrlSplit.Parse(baseUrl).netloc
  {
    var b := UrlSplit.Parse(baseUrl);
    UrlSplit.ParsedScheme(baseUrl);
    ProcessApiUrlCases(baseUrl, url);
    var rest := if url[0] == '/' then url else "/" + url;
    assert ProcessApiUrl(baseUrl, url).value == b.scheme + "://" + b.netloc + rest;
    UrlSplit.ParseComposed(b.scheme, b.netloc, rest);
  }

  /**
   * Two bases with the same scheme and host give the same result: the base's
   * path does not matter, where `process_url` joins onto its directory.
   */
  lemma ProcessApiUrlIgnoresBasePath(base1: string, base2: string, url: string)
    requires base1 != "" && base2 != ""
    requires UrlSplit.Parse(base1).scheme == UrlSplit.Parse(base2).scheme
    requires UrlSplit.Parse(base1).netloc == UrlSplit.Parse(base2).netloc
    ensures ProcessApiUrl(base1, url) == ProcessApiUrl(base2, url)
  {
  }

  // -------------------------------------------------------------- process_apis

  /** The buckets, the URL set and the pending-method register of one `process_apis` run. */
  datatype Classifier = Classifier(buckets: map<string, seq<string>>, allUrls: set<string>, pending: Option<string>)

  /** One finding of `process_apis`. */
  function Step(baseUrl: string, st: Classifier, f: Finding): (r: Classifier)
    requires Unknown in st.buckets
    ensures r.buckets.Keys == st.buckets.Keys
  {
    match f
    case Method(v) => st.(pending := Some(v))
    case UnresolvedUrl => st
    case Url(v) =>
      if v == "" then st
      else
        match ProcessApiUrl(baseUrl, v)
        case None => st
        case Some(u) =>
          if Pairs(st) then
            var m := st.pending.value;
            Classifier(st.buckets[m := st.buckets[m] + [u]], st.allUrls + {u}, None)
          else
            Classifier(st.buckets[Unknown := st.buckets[Unknown] + [u]], st.allUrls + {u}, st.pending)
  }

  /** The findings in order, left to right; the register persists across groups. */
  function Run(baseUrl: string, st: Classifier, findings: seq<Finding>): (r: Classifier)
    requires Unknown in st.buckets
    ensures r.buckets.Keys == st.buckets.Keys
    decreases |findings|
  {
    if findings == [] then st
    else Step(baseUrl, Run(baseUrl, st, findings[..|findings| - 1]), findings[|findings| - 1])
  }

  function Flatten(groups: seq<seq<Finding>>): seq<Finding>
    decreases |groups|
  {
    if groups == [] then [] else Flatten(groups[..|groups| - 1]) + groups[|groups| - 1]
  }

  /** Every URL ever put in a bucket. */
  function BucketUrls(buckets: map<string, seq<string>>): set<string> {
    set m, u | m in buckets && u in buckets[m] :: u
  }

  /** `all_urls` holds exactly the URLs in the buckets. */
  predicate Consistent(st: Classifier) {
    st.allUrls == BucketUrls(st.buckets)
  }

  predicate IsPrefix<T(==)>(a: seq<T>, b: seq<T>) {
    |a| <= |b| && b[..|a|] == a
  }

  /** A URL finding the processor takes: non-empty, and its resolution succeeds. */
  predicate Takes(baseUrl: string, f: Finding) {
    f.Url? && f.value != "" && ProcessApiUrl(baseUrl, f.value).Some?
  }

  /** The pending method, when it is non-empty and names a bucket. */
  predicate Pairs(st: Classifier) {
    st.pending.Some? && st.pending.value != "" && st.pending.value in st.buckets
  }

  /**
   * A step that takes a URL appends its resolution to exactly one bucket
   * (the pending method's when it names a bucket, else `UNKNOWN_METHOD`),
   * leaves every other bucket as it was, keeps `all_urls` in step and
   * clears the register only when it paired; a method finding only sets
   * the register; any other finding changes nothing.
   */
  lemma StepBuckets(baseUrl: string, st: Classifier, f: Finding)
    requires Unknown in st.buckets && Consistent(st)
    ensures Consistent(Step(baseUrl, st, f))
    ensures !Takes(baseUrl, f) ==> Step(baseUrl, st, f).buckets == st.buckets && Step(baseUrl, st, f).allUrls == st.allUrls
    ensures Takes(baseUrl, f) ==>
      var u := ProcessApiUrl(baseUrl, f.value).value;
      var m := if Pairs(st) then st.pending.value else Unknown;
      Step(baseUrl, st, f).buckets == st.buckets[m := st.buckets[m] + [u]]
      && Step(baseUrl, st, f).allUrls == st.allUrls + {u}
      && Step(baseUrl, st, f).pending == if Pairs(st) then None else st.pending
    ensures f.Method? ==> Step(baseUrl, st, f).pending == Some(f.verb)
    ensures !f.Method? && !Takes(baseUrl, f) ==> Step(baseUrl, st, f).pending == st.pending
  {
    var r := Step(baseUrl, st, f);
    if Takes(baseUrl, f) {
      var u := ProcessApiUrl(baseUrl, f.value).value;
      var m := if Pairs(st) then st.pending.value else Unknown;
      assert r.buckets == st.buckets[m := st.buckets[m] + [u]];
      BucketUrlsAppend(st.buckets, m, u);
    }
  }

  lemma BucketUrlsAppend(buckets: map<string, seq<string>>, m: string, u: string)
    requires m in buckets
    ensures BucketUrls(buckets[m := buckets[m] + [u]]) == BucketUrls(buckets) + {u}
  {
    var b' := buckets[m := buckets[m] + [u]];
    forall x | x in BucketUrls(b')
      ensures x in BucketUrls(buckets) + {u}
    {
      var n :| n in b' && x in b'[n];
      if n == m && x != u {
        assert x in buckets[m];
      }
    }
    forall x | x in BucketUrls(buckets)
      ensures x in BucketUrls(b')
    {
      var n :| n in buckets && x in buckets[n];
      assert x in b'[n];
    }
    assert u in b'[m];
  }

  lemma {:induction false} RunSnoc(baseUrl: string, st: Classifier, findings: seq<Finding>, f: Finding)
    requires Unknown in st.buckets
    ensures Run(baseUrl, st, findings + [f]) == Step(baseUrl, Run(baseUrl, st, findings), f)
  {
    assert (findings + [f])[..|findings|] == findings;
  }

  lemma {:induction false} FlattenSnoc(groups: seq<seq<Finding>>, i: nat)
    requires i < |groups|
    ensures Flatten(groups[..i + 1]) == Flatten(groups[..i]) + groups[i]
  {
    assert groups[..i + 1][..i] == groups[..i];
  }

  /**
   * Buckets only grow at their end, and `all_urls` stays the set of the
   * URLs in the buckets, whatever the findings.
   */
  lemma {:induction false} RunAppendOnly(baseUrl: string, st: Classifier, findings: seq<Finding>)
    requires Unknown in st.buckets && Consistent(st)
    ensures Consistent(Run(baseUrl, st, findings))
    ensures forall m :: m in st.buckets ==> IsPrefix(st.buckets[m], Run(baseUrl, st, findings).buckets[m])
    decreases |findings|
  {
    if findings != [] {
      var prefix := findings[..|findings| - 1];
      var f := findings[|findings| - 1];
      RunAppendOnly(baseUrl, st, prefix);
      var mid := Run(baseUrl, st, prefix);
      StepAppendOnly(baseUrl, mid, f);
      var r := Step(baseUrl, mid, f);
      forall m | m in st.buckets
        ensures IsPrefix(st.buckets[m], r.buckets[m])
      {
        assert IsPrefix(st.buckets[m], mid.buckets[m]);
        assert IsPrefix(mid.buckets[m], r.buckets[m]);
      }
    }
  }

  /** One step only appends to buckets and keeps `all_urls` in step. */
  lemma StepAppendOnly(baseUrl: string, st: Classifier, f: Finding)
    requires Unknown in st.buckets && Consistent(st)
    ensures Consistent(Step(baseUrl, st, f))
    ensures forall m :: m in st.buckets ==> IsPrefix(st.buckets[m], Step(baseUrl, st, f).buckets[m])
  {
    StepBuckets(baseUrl, st, f);
    if Takes(baseUrl, f) {
      var m := if Pairs(st) then st.pending.value else Unknown;
      var u := ProcessApiUrl(baseUrl, f.value).value;
      assert (st.buckets[m] + [u])[..|st.buckets[m]|] == st.buckets[m];
    }
  }

  /**
   * A finding that is neither a method nor a URL the processor takes changes
   * nothing at all: in particular an empty or unresolvable URL does not
   * clear the pending method.
   */
  lemma SkippedFindingKeepsState(baseUrl: string, st: Classifier, f: Finding)
    requires Unknown in st.buckets
    requires !f.Method? && !Takes(baseUrl, f)
    ensures Step(baseUrl, st, f) == st
  {
  }

  /**
   * Pairing is positional: after `[method v, url a, url b]` the resolution
   * of `a` is the last URL of bucket `v`, the resolution of `b` the last of
   * `UNKNOWN_METHOD`, and no method is pending any more.
   */
  lemma {:induction false} MethodPairsWithNextUrlOnly(baseUrl: string, st: Classifier, v: string, a: string, b: string)
    requires Unknown in st.buckets && v in st.buckets && v != "" && v != Unknown
    requires baseUrl != "" && a != "" && b != ""
    ensures var r := Run(baseUrl, st, [Extractor.Method(v), Extractor.Url(a), Extractor.Url(b)]);
            r.buckets == st.buckets[v := st.buckets[v] + [ProcessApiUrl(baseUrl, a).value]]
                                   [Unknown := st.buckets[Unknown] + [ProcessApiUrl(baseUrl, b).value]]
            && r.allUrls == st.allUrls + {ProcessApiUrl(baseUrl, a).value, ProcessApiUrl(baseUrl, b).value}
            && r.pending == None
  {
    var fs := [Extractor.Method(v), Extractor.Url(a), Extractor.Url(b)];
    RunSnoc(baseUrl, st, [], fs[0]);
    RunSnoc(baseUrl, st, fs[..1], fs[1]);
    RunSnoc(baseUrl, st, fs[..2], fs[2]);
    assert fs[..1] == [] + [fs[0]];
    assert fs[..2] == fs[..1] + [fs[1]];
    assert fs == fs[..2] + [fs[2]];
  }

  /**
   * A method followed by a URL the processor drops stays pending: after
   * `[method v, url "", url a]` the resolution of `a` lands in bucket `v`.
   */
  lemma DroppedUrlKeepsMethodPending(baseUrl: string, st: Classifier, v: string, a: string)
    requires Unknown in st.buckets && v in st.buckets && v != ""
    requires baseUrl != "" && a != ""
    ensures var r := Run(baseUrl, st, [Extractor.Method(v), Extractor.Url(""), Extractor.Url(a)]);
            r.buckets == st.buckets[v := st.buckets[v] + [ProcessApiUrl(baseUrl, a).value]]
            && r.pending == None
  {
    var fs := [Extractor.Method(v), Extractor.Url(""), Extractor.Url(a)];
    RunSnoc(baseUrl, st, [], fs[0]);
    RunSnoc(baseUrl, st, fs[..1], fs[1]);
    RunSnoc(baseUrl, st, fs[..2], fs[2]);
    assert fs[..1] == [] + [fs[0]];
    assert fs[..2] == fs[..1] + [fs[1]];
    assert fs == fs[..2] + [fs[2]];
  }

  /** Without any method finding, every URL taken goes to `UNKNOWN_METHOD`, in order. */
  lemma {:induction false} NoMethodMeansUnknown(baseUrl: string, st: Classifier, findings: seq<Finding>)
    requires Unknown in st.buckets && st.pending == None
    requires forall k :: 0 <= k < |findings| ==> !findings[k].Method?
    ensures Run(baseUrl, st, findings).pending == None
    ensures forall m :: m in st.buckets && m != Unknown ==> Run(baseUrl, st, findings).buckets[m] == st.buckets[m]
    ensures Run(baseUrl, st, findings).buckets[Unknown] == st.buckets[Unknown] + Taken(baseUrl, findings)
    decreases |findings|
  {
    if findings != [] {
      var prefix := findings[..|findings| - 1];
      var f := findings[|findings| - 1];
      NoMethodMeansUnknown(baseUrl, st, prefix);
      var mid := Run(baseUrl, st, prefix);
      assert Run(baseUrl, st, findings) == Step(baseUrl, mid, f);
      assert Taken(baseUrl, findings) == Taken(baseUrl, prefix) + Taken(baseUrl, [f]) by {
        assert [f][..0] == [];
      }
      UnpairedStep(baseUrl, mid, f);
      AppendAssoc(st.buckets[Unknown], Taken(baseUrl, prefix), Taken(baseUrl, [f]));
    }
  }

  /** One finding that is not a method, with no method pending. */
  lemma UnpairedStep(baseUrl: string, st: Classifier, f: Finding)
    requires Unknown in st.buckets && st.pending == None && !f.Method?
    ensures Step(baseUrl, st, f).pending == None
    ensures Step(baseUrl, st, f).buckets == st.buckets[Unknown := st.buckets[Unknown] + Taken(baseUrl, [f])]
  {
    assert [f][..0] == [];
    if Takes(baseUrl, f) {
      assert Taken(baseUrl, [f]) == [ProcessApiUrl(baseUrl, f.value).value];
    } else {
      assert Taken(baseUrl, [f]) == [];
      assert st.buckets[Unknown] + [] == st.buckets[Unknown];
      assert st.buckets[Unknown := st.buckets[Unknown]] == st.buckets;
    }
  }

  /** The resolutions of the URL findings the processor takes, in order. */
  function Taken(baseUrl: string, findings: seq<Finding>): seq<string>
    decreases |findings|
  {
    if findings == [] then []
    else
      var f := findings[|findings| - 1];
      Taken(baseUrl, findings[..|findings| - 1]) + (if Takes(baseUrl, f) then [ProcessApiUrl(baseUrl, f.value).value] else [])
  }

  // ------------------------------------------------------ extract_related_domains

  function Host(url: string): string {
    UrlSplit.Parse(url).netloc
  }

  /**
   * The root part of a host as `extract_related_domains` computes it with
   * `find_last_occurrences`: what follows the second-to-last '.', or the
   * whole host when it has fewer than two dots.
   */
  function MainPart(host: string): (part: string)
    ensures EndsWith(host, part)
  {
    var positions := Utils.Occurrences(host, ".", 0);
    Utils.OccurrencesSpec(host, ".", 0);
    if |positions| > 1 then host[positions[|positions| - 2] + 1..] else host
  }

  lemma OccursAtDot(s: string, i: int)
    ensures OccursAt(s, ".", i) <==> 0 <= i < |s| && s[i] == '.'
  {
    if 0 <= i < |s| {
      assert s[i..i + 1] == [s[i]];
    }
  }

  /** The positions from `from` end with the positions from any later `mid`. */
  lemma {:induction false} OccurrencesTail(s: string, sub: string, from: nat, mid: nat)
    requires from <= mid
    ensures |Utils.Occurrences(s, sub, mid)| <= |Utils.Occurrences(s, sub, from)|
    ensures var all := Utils.Occurrences(s, sub, from);
            all[|all| - |Utils.Occurrences(s, sub, mid)|..] == Utils.Occurrences(s, sub, mid)
    decreases mid - from
  {
    if from < mid && from <= |s| {
      OccurrencesTail(s, sub, from + 1, mid);
      var all := Utils.Occurrences(s, sub, from);
      var rest := Utils.Occurrences(s, sub, from + 1);
      assert all == (if OccursAt(s, sub, from) then [from] else []) + rest;
      assert all[|all| - |rest|..] == rest;
    } else if from < mid {
      assert Utils.Occurrences(s, sub, from) == [];
      assert Utils.Occurrences(s, sub, mid) == [];
    }
  }

  /** `a.b.c` with dot-free `b` and `c` has root part `b.c`: the last two labels. */
  lemma {:induction false} MainPartLastTwoLabels(a: string, b: string, c: string)
    requires '.' !in b && '.' !in c
    ensures MainPart(a + "." + b + "." + c) == b + "." + c
  {
    var s := a + "." + b + "." + c;
    var p1, p2 := |a|, |a| + 1 + |b|;
    var all := Utils.Occurrences(s, ".", 0);
    assert |all| >= 2 && all[|all| - 2] == p1 by {
      LastTwoDots(s, a, b, c);
      OccurrencesTail(s, ".", 0, p1);
      assert all[|all| - 2..] == [p1, p2];
    }
    assert s[p1 + 1..] == b + "." + c;
  }

  /** In `a.b.c` with dot-free `b` and `c`, the dots from the first separator on are the two separators. */
  lemma {:induction false} LastTwoDots(s: string, a: string, b: string, c: string)
    requires s == a + "." + b + "." + c && '.' !in b && '.' !in c
    ensures Utils.Occurrences(s, ".", |a|) == [|a|, |a| + 1 + |b|]
  {
    LabelDots(a, b, c);
    TwoLastDots(s, |a|, |a| + 1 + |b|);
  }

  /** Dots at `p1` and `p2` and none elsewhere after `p1`: those two are the dot positions from `p1`. */
  lemma {:induction false} TwoLastDots(s: string, p1: nat, p2: nat)
    requires p1 < p2 < |s| && s[p1] == '.' && s[p2] == '.'
    requires forall i :: p1 < i < |s| && i != p2 ==> s[i] != '.'
    ensures Utils.Occurrences(s, ".", p1) == [p1, p2]
  {
    NoDotsSkip(s, p1 + 1, p2);
    NoDotsSkip(s, p2 + 1, |s| + 1);
    DotStep(s, p1);
    DotStep(s, p2);
    assert Utils.Occurrences(s, ".", |s| + 1) == [];
  }

  /** The dots of `a.b.c` after `a`, with dot-free `b` and `c`: exactly the two separators. */
  lemma {:induction false} LabelDots(a: string, b: string, c: string)
    requires '.' !in b && '.' !in c
    ensures var s := a + "." + b + "." + c;
            s[|a|] == '.' && s[|a| + 1 + |b|] == '.' &&
            forall i :: |a| < i < |s| && i != |a| + 1 + |b| ==> s[i] != '.'
  {
    var s := a + "." + b + "." + c;
    forall i | |a| < i < |s| && i != |a| + 1 + |b|
      ensures s[i] != '.'
    {
      if i < |a| + 1 + |b| {
        assert s[i] == b[i - |a| - 1];
      } else {
        assert s[i] == c[i - |a| - 2 - |b|];
      }
    }
  }

  /** No dot from `from` up to `to` means no dot position there. */
  lemma {:induction false} NoDotsSkip(s: string, from: nat, to: nat)
    requires from <= to <= |s| + 1
    requires forall i :: from <= i < to && i < |s| ==> s[i] != '.'
    ensures Utils.Occurrences(s, ".", from) == Utils.Occurrences(s, ".", to)
  {
    forall i | from <= i < to
      ensures !OccursAt(s, ".", i)
    {
      OccursAtDot(s, i);
    }
    Utils.OccurrencesSkip(s, ".", from, to);
  }

  /** A dot at `i` heads the dot positions from `i`. */
  lemma DotStep(s: string, i: nat)
    requires i < |s| && s[i] == '.'
    ensures Utils.Occurrences(s, ".", i) == [i] + Utils.Occurrences(s, ".", i + 1)
  {
    OccursAtDot(s, i);
  }

  /** A host with at most one dot is its own root part. */
  lemma MainPartFewDots(host: string)
    requires forall i, j :: 0 <= i < j < |host| ==> !(host[i] == '.' && host[j] == '.')
    ensures MainPart(host) == host
  {
    var positions := Utils.Occurrences(host, ".", 0);
    Utils.OccurrencesSpec(host, ".", 0);
    if |positions| > 1 {
      OccursAtDot(host, positions[0]);
      OccursAtDot(host, positions[1]);
      assert false;
    }
  }

  /** A URL shares the root part when its host is non-empty and contains it. */
  predicate Affine(url: string, part: string)
    ensures Affine(url, part) ==> Host(url) != ""
    ensures Host(url) != "" && (StartsWith(Host(url), part) || EndsWith(Host(url), part)) ==> Affine(url, part)
  {
    PrefixSuffixAreSubstrings(Host(url), part);
    Host(url) != "" && Contains(Host(url), part)
  }

  /** The hosts of the affine URLs. */
  function AffineHosts(urls: set<string>, part: string): set<string> {
    set u | u in urls && Affine(u, part) :: Host(u)
  }

  /** The affine URLs on host `d`. */
  function UrlsOn(urls: set<string>, part: string, d: string): set<string> {
    set u | u in urls && Affine(u, part) && Host(u) == d
  }

  /** Every list of the domain map is duplicate-free and holds only URLs on its host. */
  predicate WellGrouped(domainApiMap: map<string, seq<string>>) {
    forall d :: d in domainApiMap ==> NoDup(domainApiMap[d]) && forall k :: 0 <= k < |domainApiMap[d]| ==> Host(domainApiMap[d][k]) == d
  }

  /**
   * A URL on a sibling of the start host `a.b.c` (the host `x.b.c`) is
   * related: both share the root part `b.c`.
   */
  lemma {:induction false} SiblingHostIsRelated(a: string, b: string, c: string, x: string, url: string)
    requires '.' !in b && '.' !in c
    requires Host(url) == x + "." + b + "." + c
    ensures MainPart(a + "." + b + "." + c) == b + "." + c
    ensures Affine(url, MainPart(a + "." + b + "." + c))
  {
    MainPartLastTwoLabels(a, b, c);
    var host := x + "." + b + "." + c;
    assert host == x + "." + (b + "." + c);
    PrefixSuffixAreSubstrings(host, b + "." + c);
  }

  // ------------------------------------------------------------------ the class

  /** The empty bucket of every name. */
  function EmptyBuckets(): (b: map<string, seq<string>>)
    ensures b.Keys == Elements(BucketNames) && forall m :: m in b ==> b[m] == []
  {
    map m | m in BucketNames :: []
  }

  /** The first occurrence of each URL, in order, kept with a `seen` set. */
  method UniqueInOrder(apis: seq<string>) returns (unique: seq<string>)
    ensures unique == Dedup(apis)
    ensures NoDup(unique) && Elements(unique) == Elements(apis)
  {
    unique := [];
    var seen: set<string> := {};
    for i := 0 to |apis|
      invariant unique == Dedup(apis[..i])
      invariant seen == Elements(unique)
    {
      var api := apis[i];
      assert apis[..i + 1][..i] == apis[..i];
      if api !in seen {
        seen := seen + {api};
        unique := unique + [api];
      }
    }
    assert apis[..|apis|] == apis;
    DedupNoDup(apis);
    DedupSameElements(apis);
  }

  /**
   * The root-part computation of `extract_related_domains`, with the dot
   * positions from `find_last_occurrences`.
   */
  method RootPart(mainDomain: string) returns (mainPart: string)
    ensures mainPart == MainPart(mainDomain)
  {
    var positions := Utils.FindLastOccurrences(mainDomain, ".");
    mainPart := mainDomain;
    if |positions| > 1 {
      mainPart := mainDomain[positions[|positions| - 2] + 1..];
    }
  }

  /** The eight buckets, the URL set, the related domains and the domain map. */
  class ResultProcessor {
    var categorizedApis: map<string, seq<string>>
    var allUrls: set<string>
    var relatedDomains: set<string>
    var domainApiMap: map<string, seq<string>>

    ghost predicate Valid()
      reads this
    {
      Unknown in categorizedApis && Consistent(Classifier(categorizedApis, allUrls, None)) && WellGrouped(domainApiMap)
    }

    constructor()
      ensures Valid()
      ensures categorizedApis == EmptyBuckets() && allUrls == {}
      ensures relatedDomains == {} && domainApiMap == map[]
    {
      categorizedApis := EmptyBuckets();
      allUrls := {};
      relatedDomains := {};
      domainApiMap := map[];
    }

    /**
     * `process_apis`: the findings of all groups in order, with the pending
     * method starting empty on each call.
     */
    method ProcessApis(apiInfoList: seq<seq<Finding>>, baseUrl: string)
      requires Valid()
      modifies this
      ensures Valid()
      ensures var r := Run(baseUrl, Classifier(old(categorizedApis), old(allUrls), None), Flatten(apiInfoList));
              categorizedApis == r.buckets && allUrls == r.allUrls
      ensures relatedDomains == old(relatedDomains) && domainApiMap == old(domainApiMap)
    {
      ghost var start := Classifier(categorizedApis, allUrls, None);
      ghost var seen: seq<Finding> := [];
      var currentMethod: Option<string> := None;
      for i := 0 to |apiInfoList|
        invariant seen == Flatten(apiInfoList[..i])
        invariant Classifier(categorizedApis, allUrls, currentMethod) == Run(baseUrl, start, seen)
        invariant Unknown in categorizedApis
        invariant relatedDomains == old(relatedDomains) && domainApiMap == old(domainApiMap)
      {
        currentMethod := TakeGroup(baseUrl, apiInfoList[i], currentMethod, start, seen);
        seen := seen + apiInfoList[i];
        FlattenSnoc(apiInfoList, i);
      }
      assert apiInfoList[..|apiInfoList|] == apiInfoList;
      RunAppendOnly(baseUrl, start, Flatten(apiInfoList));
    }

    /** The inner loop of `process_apis`: one group of findings, in order. */
    method TakeGroup(baseUrl: string, apiInfo: seq<Finding>, currentMethod: Option<string>,
                     ghost start: Classifier, ghost seen: seq<Finding>)
      returns (next: Option<string>)
      requires Unknown in categorizedApis && Unknown in start.buckets
      requires Classifier(categorizedApis, allUrls, currentMethod) == Run(baseUrl, start, seen)
      modifies this
      ensures Unknown in categorizedApis
      ensures Classifier(categorizedApis, allUrls, next) == Run(baseUrl, start, seen + apiInfo)
      ensures relatedDomains == old(relatedDomains) && domainApiMap == old(domainApiMap)
    {
      next := currentMethod;
      assert seen + apiInfo[..0] == seen;
      for j := 0 to |apiInfo|
        invariant Classifier(categorizedApis, allUrls, next) == Run(baseUrl, start, seen + apiInfo[..j])
        invariant Unknown in categorizedApis
        invariant relatedDomains == old(relatedDomains) && domainApiMap == old(domainApiMap)
      {
        var item := apiInfo[j];
        RunSnoc(baseUrl, start, seen + apiInfo[..j], item);
        next := TakeFinding(baseUrl, item, next);
        AppendTakeSnoc(seen, apiInfo, j);
      }
      assert apiInfo[..|apiInfo|] == apiInfo;
    }

    /** One finding of `process_apis`, with the pending method before and after it. */
    method TakeFinding(baseUrl: string, item: Finding, currentMethod: Option<string>) returns (next: Option<string>)
      requires Unknown in categorizedApis
      modifies this
      ensures Classifier(categorizedApis, allUrls, next)
              == Step(baseUrl, Classifier(old(categorizedApis), old(allUrls), currentMethod), item)
      ensures relatedDomains == old(relatedDomains) && domainApiMap == old(domainApiMap)
    {
      next := currentMethod;
      match item
      case Method(v) =>
        next := Some(v);
      case UnresolvedUrl =>
      case Url(v) =>
        if v != "" {
          var processedUrl := ProcessApiUrl(baseUrl, v);
          if processedUrl.Some? {
            var u := processedUrl.value;
            allUrls := allUrls + {u};
            if currentMethod.Some? && currentMethod.value != "" && currentMethod.value in categorizedApis {
              var m := currentMethod.value;
              categorizedApis := categorizedApis[m := categorizedApis[m] + [u]];
              next := None;
            } else {
              categorizedApis := categorizedApis[Unknown := categorizedApis[Unknown] + [u]];
            }
          }
        }
    }

    /**
     * `extract_related_domains`: the start host and every affine host become
     * related, and each affine URL is added once under its host.
     */
    method ExtractRelatedDomains(mainUrl: string)
      requires Valid()
      modifies this
      ensures Valid()
      ensures categorizedApis == old(categorizedApis) && allUrls == old(allUrls)
      ensures mainUrl == "" || allUrls == {} ==>
                relatedDomains == old(relatedDomains) && domainApiMap == old(domainApiMap)
      ensures mainUrl != "" && allUrls != {} ==>
                var part := MainPart(Host(mainUrl));
                relatedDomains == old(relatedDomains) + {Host(mainUrl)} + AffineHosts(allUrls, part)
                && GroupedSoFar(old(domainApiMap), domainApiMap, allUrls, part)
    {
      if mainUrl == "" || allUrls == {} {
        return;
      }
      var mainDomain := Host(mainUrl);
      var mainPart := RootPart(mainDomain);
      relatedDomains := relatedDomains + {mainDomain};
      relatedDomains, domainApiMap := GroupUrls(allUrls, mainPart, relatedDomains, domainApiMap);
      GroupingMeans(old(domainApiMap), domainApiMap, allUrls, mainPart);
    }

    /**
     * The loop of `extract_related_domains` over `urls` (the source iterates
     * over its URL set in no particular order), on the related domains and
     * the domain map.
     */
    static method GroupUrls(urls: set<string>, mainPart: string, related: set<string>, m: map<string, seq<string>>)
      returns (related': set<string>, m': map<string, seq<string>>)
      requires WellGrouped(m)
      ensures related' == related + AffineHosts(urls, mainPart)
      ensures Grouping(m, m', urls, mainPart)
    {
      var remaining := urls;
      related', m' := related, m;
      GroupingStart(m, mainPart);
      while remaining != {}
        invariant remaining <= urls
        invariant related' == related + AffineHosts(urls - remaining, mainPart)
        invariant Grouping(m, m', urls - remaining, mainPart)
        decreases |remaining|
      {
        var url :| url in remaining;
        ghost var done := urls - remaining;
        RelatedStep(related, related', done, mainPart, url);
        GroupingStep(m, m', done, mainPart, url);
        related', m' := GroupUrl(related', m', url, mainPart);
        remaining := remaining - {url};
        assert urls - remaining == done + {url};
      }
      assert urls - remaining == urls;
    }

    /** One URL of the loop of `extract_related_domains`. */
    static method GroupUrl(related: set<string>, m: map<string, seq<string>>, url: string, mainPart: string)
      returns (related': set<string>, m': map<string, seq<string>>)
      ensures related' == related + (if Affine(url, mainPart) then {Host(url)} else {})
      ensures m' == Grouped(m, mainPart, url)
    {
      related', m' := related, m;
      var domain := Host(url);
      if domain != "" && Contains(domain, mainPart) {
        related' := related' + {domain};
        if domain !in m' {
          m' := m'[domain := []];
        }
        if url !in m'[domain] {
          m' := m'[domain := m'[domain] + [url]];
        }
      }
    }

    /** `remove_duplicates`: each bucket keeps the first occurrence of each URL, in order. */
    method RemoveDuplicates()
      requires Valid()
      modifies this
      ensures Valid()
      ensures categorizedApis == map m | m in old(categorizedApis) :: Dedup(old(categorizedApis)[m])
      ensures allUrls == old(allUrls) && relatedDomains == old(relatedDomains) && domainApiMap == old(domainApiMap)
    {
      var remaining := categorizedApis.Keys;
      while remaining != {}
        invariant remaining <= categorizedApis.Keys == old(categorizedApis).Keys
        invariant forall m :: m in categorizedApis ==>
                    categorizedApis[m] == if m in remaining then old(categorizedApis)[m] else Dedup(old(categorizedApis)[m])
        invariant allUrls == old(allUrls) && relatedDomains == old(relatedDomains) && domainApiMap == old(domainApiMap)
        decreases |remaining|
      {
        var bucket :| bucket in remaining;
        DedupBucket(bucket);
        remaining := remaining - {bucket};
      }
      DedupKeepsBucketUrls(old(categorizedApis), categorizedApis);
    }

    /** One bucket of `remove_duplicates`. */
    method DedupBucket(bucket: string)
      requires bucket in categorizedApis
      modifies this
      ensures categorizedApis == old(categorizedApis)[bucket := Dedup(old(categorizedApis)[bucket])]
      ensures allUrls == old(allUrls) && relatedDomains == old(relatedDomains) && domainApiMap == old(domainApiMap)
    {
      var uniqueApis := UniqueInOrder(categorizedApis[bucket]);
      categorizedApis := categorizedApis[bucket := uniqueApis];
    }
  }

  /** Deduplicating every bucket keeps the set of bucketed URLs, so `all_urls` stays in step. */
  lemma DedupKeepsBucketUrls(buckets: map<string, seq<string>>, deduped: map<string, seq<string>>)
    requires deduped.Keys == buckets.Keys
    requires forall m :: m in buckets ==> deduped[m] == Dedup(buckets[m])
    ensures BucketUrls(deduped) == BucketUrls(buckets)
  {
    forall u | u in BucketUrls(buckets)
      ensures u in BucketUrls(deduped)
    {
      var m :| m in buckets && u in buckets[m];
      DedupSameElements(buckets[m]);
      assert u in Elements(buckets[m]);
      assert m in deduped && u in deduped[m];
    }
    forall u | u in BucketUrls(deduped)
      ensures u in BucketUrls(buckets)
    {
      var m :| m in deduped && u in deduped[m];
      DedupSameElements(buckets[m]);
      assert u in Elements(deduped[m]);
      assert m in buckets && u in buckets[m];
    }
  }

  /** One URL of the loop of `extract_related_domains` added to the domain map. */
  function Grouped(domainApiMap: map<string, seq<string>>, part: string, url: string): map<string, seq<string>> {
    if Affine(url, part) then
      var d := Host(url);
      var group := if d in domainApiMap then domainApiMap[d] else [];
      domainApiMap[d := if url in group then group else group + [url]]
    else domainApiMap
  }

  /**
   * The loop invariant of the grouping loop, stated element by element:
   * earlier keys stay with their lists as prefixes, every new key has a
   * non-empty list, every affine URL handled sits under its host, and every
   * listed URL was there before or is an affine URL handled.
   */
  predicate Grouping(m0: map<string, seq<string>>, m: map<string, seq<string>>, done: set<string>, part: string) {
    && (forall d :: d in m0 ==> d in m && IsPrefix(m0[d], m[d]))
    && (forall d :: d in m && d !in m0 ==> m[d] != [])
    && (forall u :: u in done && Affine(u, part) ==> Host(u) in m && u in m[Host(u)])
    && (forall d, k :: d in m && 0 <= k < |m[d]| ==>
          m[d][k] in OldList(m0, d) || (m[d][k] in done && Affine(m[d][k], part)))
    && WellGrouped(m)
  }

  /** The list the domain map held for `d` before, or the empty list. */
  function OldList(domainApiMap: map<string, seq<string>>, d: string): (r: seq<string>)
    ensures Elements(r) == OldGroup(domainApiMap, d)
  {
    if d in domainApiMap then domainApiMap[d] else []
  }

  /** Before the grouping loop: nothing handled, nothing changed. */
  lemma GroupingStart(m: map<string, seq<string>>, part: string)
    requires WellGrouped(m)
    ensures Grouping(m, m, {}, part)
  {
    forall d | d in m
      ensures IsPrefix(m[d], m[d])
    {
      assert m[d][..|m[d]|] == m[d];
    }
  }

  /** The grouping loop handles URLs one at a time, in any order; each keeps the invariant. */
  lemma {:induction false} GroupingStep(m0: map<string, seq<string>>, m: map<string, seq<string>>, done: set<string>, part: string, url: string)
    requires Grouping(m0, m, done, part)
    ensures Grouping(m0, Grouped(m, part, url), done + {url}, part)
  {
    GroupedKeepsPrefixes(m0, m, part, url);
    GroupedNewKeys(m0, m, part, url);
    GroupedCovers(m0, m, done, part, url);
    GroupedOnly(m0, m, done, part, url);
    GroupedWellGrouped(m, part, url);
  }

  lemma RelatedStep(r0: set<string>, r: set<string>, done: set<string>, part: string, url: string)
    requires r == r0 + AffineHosts(done, part)
    ensures r + (if Affine(url, part) then {Host(url)} else {}) == r0 + AffineHosts(done + {url}, part)
  {
    assert AffineHosts(done + {url}, part) == AffineHosts(done, part) + (if Affine(url, part) then {Host(url)} else {});
  }

  lemma {:induction false} GroupedKeepsPrefixes(m0: map<string, seq<string>>, m: map<string, seq<string>>, part: string, url: string)
    requires forall d :: d in m0 ==> d in m && IsPrefix(m0[d], m[d])
    ensures forall d :: d in m0 ==> d in Grouped(m, part, url) && IsPrefix(m0[d], Grouped(m, part, url)[d])
  {
    if Affine(url, part) {
      var d := Host(url);
      var group := if d in m then m[d] else [];
      if url !in group && d in m0 {
        assert IsPrefix(m0[d], group);
        assert (group + [url])[..|m0[d]|] == group[..|m0[d]|];
      }
    }
  }

  lemma GroupedNewKeys(m0: map<string, seq<string>>, m: map<string, seq<string>>, part: string, url: string)
    requires forall d :: d in m && d !in m0 ==> m[d] != []
    ensures forall d :: d in Grouped(m, part, url) && d !in m0 ==> Grouped(m, part, url)[d] != []
  {
    if Affine(url, part) {
      assert url in Grouped(m, part, url)[Host(url)];
    }
  }

  lemma {:induction false} GroupedCovers(m0: map<string, seq<string>>, m: map<string, seq<string>>, done: set<string>, part: string, url: string)
    requires forall u :: u in done && Affine(u, part) ==> Host(u) in m && u in m[Host(u)]
    ensures forall u :: u in done + {url} && Affine(u, part) ==>
              Host(u) in Grouped(m, part, url) && u in Grouped(m, part, url)[Host(u)]
  {
    if Affine(url, part) {
      var d := Host(url);
      var group := if d in m then m[d] else [];
      var extended := if url in group then group else group + [url];
      assert Grouped(m, part, url) == m[d := extended];
      assert url in extended;
      forall u | u in done && Affine(u, part) && Host(u) == d
        ensures u in extended
      {
        assert u in group;
      }
    }
  }

  lemma {:induction false} GroupedOnly(m0: map<string, seq<string>>, m: map<string, seq<string>>, done: set<string>, part: string, url: string)
    requires forall d, k :: d in m && 0 <= k < |m[d]| ==>
               m[d][k] in OldList(m0, d) || (m[d][k] in done && Affine(m[d][k], part))
    ensures forall d, k :: d in Grouped(m, part, url) && 0 <= k < |Grouped(m, part, url)[d]| ==>
              Grouped(m, part, url)[d][k] in OldList(m0, d)
              || (Grouped(m, part, url)[d][k] in done + {url} && Affine(Grouped(m, part, url)[d][k], part))
  {
    var g := Grouped(m, part, url);
    forall d, k | d in g && 0 <= k < |g[d]|
      ensures g[d][k] in OldList(m0, d) || (g[d][k] in done + {url} && Affine(g[d][k], part))
    {
      if Affine(url, part) && d == Host(url) && k < |g[d]| && g[d][k] != url {
        var group := if d in m then m[d] else [];
        assert g[d] == group || g[d] == group + [url];
        assert g[d][k] == group[k];
      }
    }
  }

  lemma {:induction false} GroupedWellGrouped(m: map<string, seq<string>>, part: string, url: string)
    requires WellGrouped(m)
    ensures WellGrouped(Grouped(m, part, url))
  {
    if Affine(url, part) {
      var d := Host(url);
      var group := if d in m then m[d] else [];
      if url !in group {
        var g := group + [url];
        forall i, j | 0 <= i < j < |g|
          ensures g[i] != g[j]
        {
          if j == |group| {
            assert g[i] == group[i];
          }
        }
        assert forall k :: 0 <= k < |g| ==> Host(g[k]) == d;
      }
    }
  }

  /**
   * What the grouping loop of `extract_related_domains` has done to the
   * domain map `m0` once the URLs in `done` are handled: the affine hosts
   * are added as keys, every earlier list is kept as a prefix, each list
   * holds its earlier URLs and exactly the affine URLs on its host, and
   * every list stays duplicate-free and on its host.
   */
  predicate GroupedSoFar(m0: map<string, seq<string>>, m: map<string, seq<string>>, done: set<string>, part: string) {
    && m.Keys == m0.Keys + AffineHosts(done, part)
    && (forall d :: d in m0 ==> IsPrefix(m0[d], m[d]))
    && (forall d :: d in m ==> Elements(m[d]) == OldGroup(m0, d) + UrlsOn(done, part, d))
    && WellGrouped(m)
  }

  /** The element-wise invariant gives the key set and the contents of every list. */
  lemma {:induction false} GroupingMeans(m0: map<string, seq<string>>, m: map<string, seq<string>>, done: set<string>, part: string)
    requires Grouping(m0, m, done, part)
    ensures GroupedSoFar(m0, m, done, part)
  {
    GroupingKeys(m0, m, done, part);
    forall d | d in m
      ensures Elements(m[d]) == OldGroup(m0, d) + UrlsOn(done, part, d)
    {
      GroupingElementsAt(m0, m, done, part, d);
    }
  }

  lemma {:induction false} GroupingKeys(m0: map<string, seq<string>>, m: map<string, seq<string>>, done: set<string>, part: string)
    requires Grouping(m0, m, done, part)
    ensures m.Keys == m0.Keys + AffineHosts(done, part)
  {
    forall d | d in m && d !in m0
      ensures d in AffineHosts(done, part)
    {
      var u := m[d][0];
      assert OldList(m0, d) == [];
      assert u in done && Affine(u, part) && Host(u) == d;
    }
    forall d | d in AffineHosts(done, part)
      ensures d in m
    {
      var u :| u in done && Affine(u, part) && Host(u) == d;
    }
  }

  lemma {:induction false} GroupingElementsAt(m0: map<string, seq<string>>, m: map<string, seq<string>>, done: set<string>, part: string, d: string)
    requires Grouping(m0, m, done, part) && d in m
    ensures Elements(m[d]) == OldGroup(m0, d) + UrlsOn(done, part, d)
  {
    forall x | x in m[d]
      ensures x in OldGroup(m0, d) + UrlsOn(done, part, d)
    {
      var k :| 0 <= k < |m[d]| && m[d][k] == x;
      assert x in OldList(m0, d) || (x in done && Affine(x, part));
    }
    forall x | x in OldGroup(m0, d)
      ensures x in m[d]
    {
      var k :| 0 <= k < |m0[d]| && m0[d][k] == x;
      assert m[d][..|m0[d]|] == m0[d];
      assert m[d][k] == x;
    }
  }

  /** The list the domain map held for `d` before, as a set. */
  function OldGroup(domainApiMap: map<string, seq<string>>, d: string): set<string> {
    if d in domainApiMap then Elements(domainApiMap[d]) else {}
  }
}
