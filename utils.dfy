/**
 * The URL helpers of `apifinder/utils.py`: the ad-hoc relative-reference
 * resolver `process_url`, the substring position scan
 * `find_last_occurrences`, and the dictionary predicate `is_api_path`.
 */
module Utils {
  import opened Wrappers
  import opened Text
  import opened Seqs
  import UrlSplit

  // ---------------------------------------------------------------- process_url

  /** Reference prefixes that never resolve to a URL. */
  const Blacklist: seq<string> := ["javascript:", "#", "data:", "mailto:", "tel:"]

  predicate Blacklisted(relativeUrl: string) {
    exists b :: b in Blacklist && StartsWith(relativeUrl, b)
  }

  predicate IsHttpUrl(s: string) {
    StartsWith(s, "http://") || StartsWith(s, "https://")
  }

  /** A reference whose first character starts no blacklisted prefix is not blacklisted. */
  lemma NotBlacklisted(relativeUrl: string)
    requires relativeUrl != "" && relativeUrl[0] !in {'j', '#', 'd', 'm', 't'}
    ensures !Blacklisted(relativeUrl)
  {
    forall b | b in Blacklist
      ensures !StartsWith(relativeUrl, b)
    {
      NotPrefixAt(relativeUrl, b, 0);
    }
  }

  /** A reference that does not start with 'h' is not absolute. */
  lemma NotHttpUrl(relativeUrl: string)
    requires relativeUrl != "" && relativeUrl[0] != 'h'
    ensures !IsHttpUrl(relativeUrl)
  {
    NotPrefixAt(relativeUrl, "http://", 0);
    NotPrefixAt(relativeUrl, "https://", 0);
  }

  /** `'/'.join(path.split('/')[:-1])`: the path without its last segment. */
  function ParentDir(path: string): string {
    var parts := SplitOn(path, '/');
    JoinWith(parts[..|parts| - 1], '/')
  }

  /**
   * Resolves `relativeUrl` against `baseUrl`. This is not the reference
   * resolution of RFC 3986: there is no dot-segment removal and no query or
   * fragment handling.
   */
  function ProcessUrl(baseUrl: string, relativeUrl: string): (r: Option<string>)
    ensures r.None? <==> baseUrl == "" || relativeUrl == "" || Blacklisted(relativeUrl)
    ensures r.Some? ==> EndsWith(r.value, relativeUrl)
    ensures r.Some? && !IsHttpUrl(relativeUrl) ==> StartsWith(r.value, UrlSplit.Parse(baseUrl).scheme + ":")
  {
    if baseUrl == "" || relativeUrl == "" then None
    else if Blacklisted(relativeUrl) then None
    else Some(Resolve(UrlSplit.Parse(baseUrl), relativeUrl))
  }

  /** The branches of `process_url` once the reference is known to be usable. */
  function Resolve(base: UrlSplit.Parts, relativeUrl: string): (r: string)
    ensures EndsWith(r, relativeUrl)
    ensures !IsHttpUrl(relativeUrl) ==> StartsWith(r, base.scheme + ":")
  {
    if IsHttpUrl(relativeUrl) then relativeUrl
    else if StartsWith(relativeUrl, "//") then base.scheme + ":" + relativeUrl
    else if StartsWith(relativeUrl, "/") then base.scheme + "://" + base.netloc + relativeUrl
    else if EndsWith(base.path, "/") then base.scheme + "://" + base.netloc + base.path + relativeUrl
    else base.scheme + "://" + base.netloc + ParentDir(base.path) + "/" + relativeUrl
  }

  /** The last path segment: what follows the last '/'. */
  function LastSegment(path: string): string {
    var parts := SplitOn(path, '/');
    parts[|parts| - 1]
  }

  /** The parent directory is exactly the path with its last segment cut off. */
  lemma ParentDirCutsLastSegment(path: string)
    ensures '/' !in path ==> ParentDir(path) == ""
    ensures '/' in path ==> path == ParentDir(path) + "/" + LastSegment(path) && '/' !in LastSegment(path)
  {
    var parts := SplitOn(path, '/');
    JoinSplit(path, '/');
    if '/' in path {
      JoinDropLast(parts, '/');
    } else {
      assert IndexOfAny(path, {'/'}) == |path|;
    }
  }

  /**
   * The directory a relative reference is joined onto: the path up to and
   * including its last '/', or "/" when the path has no '/'.
   */
  function Directory(path: string): string {
    var i := LastIndexOf(path, '/');
    if i == -1 then "/" else path[..i + 1]
  }

  /** The two branches of `process_url` for a directory-relative reference compute `Directory`. */
  lemma {:induction false} DirectoryBranches(path: string)
    ensures EndsWith(path, "/") ==> Directory(path) == path
    ensures !EndsWith(path, "/") ==> Directory(path) == ParentDir(path) + "/"
  {
    ParentDirCutsLastSegment(path);
    if !EndsWith(path, "/") && '/' in path {
      var d, last := ParentDir(path), LastSegment(path);
      assert path[|d|] == '/';
      forall k | |d| < k < |path|
        ensures path[k] != '/'
      {
        assert path[k] == last[k - |d| - 1];
      }
      assert LastIndexOf(path, '/') == |d|;
      assert path[..|d| + 1] == d + "/";
    }
  }

  /** A directory-relative reference is appended to the directory of the base path. */
  lemma ResolveJoinsDirectory(base: UrlSplit.Parts, relativeUrl: string)
    requires relativeUrl != "" && !IsHttpUrl(relativeUrl) && !StartsWith(relativeUrl, "/")
    ensures Resolve(base, relativeUrl) == base.scheme + "://" + base.netloc + Directory(base.path) + relativeUrl
  {
    var origin := base.scheme + "://" + base.netloc;
    DirectoryBranches(base.path);
    if EndsWith(base.path, "/") {
      assert origin + base.path + relativeUrl == origin + Directory(base.path) + relativeUrl;
    } else {
      assert origin + ParentDir(base.path) + "/" + relativeUrl == origin + (ParentDir(base.path) + "/") + relativeUrl;
    }
  }

  lemma ProcessUrlJoinsDirectory(baseUrl: string, relativeUrl: string)
    requires baseUrl != "" && relativeUrl != ""
    requires !Blacklisted(relativeUrl) && !IsHttpUrl(relativeUrl) && !StartsWith(relativeUrl, "/")
    ensures var base := UrlSplit.Parse(baseUrl);
      ProcessUrl(baseUrl, relativeUrl) == Some(base.scheme + "://" + base.netloc + Directory(base.path) + relativeUrl)
  {
    ResolveJoinsDirectory(UrlSplit.Parse(baseUrl), relativeUrl);
  }

  /** The directory of a path that starts with '/' starts with '/' too. */
  lemma DirectoryIsRooted(path: string)
    requires path == "" || path[0] == '/'
    ensures Directory(path) != "" && Directory(path)[0] == '/'
  {
  }

  /** Root- and directory-relative references stay on the base's scheme and host. */
  lemma ProcessUrlStaysOnBaseHost(baseUrl: string, relativeUrl: string)
    requires relativeUrl != "" && !Blacklisted(relativeUrl)
    requires !IsHttpUrl(relativeUrl) && !StartsWith(relativeUrl, "//")
    requires UrlSplit.Parse(baseUrl).scheme != "" && UrlSplit.Parse(baseUrl).netloc != ""
    ensures ProcessUrl(baseUrl, relativeUrl).Some?
    ensures UrlSplit.Parse(ProcessUrl(baseUrl, relativeUrl).value).scheme == UrlSplit.Parse(baseUrl).scheme
    ensures UrlSplit.Parse(ProcessUrl(baseUrl, relativeUrl).value).netloc == UrlSplit.Parse(baseUrl).netloc
  {
    if StartsWith(relativeUrl, "/") {
      var base := UrlSplit.Parse(baseUrl);
      UrlSplit.ParsedScheme(baseUrl);
      ProcessUrlRootRelative(baseUrl, relativeUrl);
      UrlSplit.ParseComposed(base.scheme, base.netloc, relativeUrl);
    } else {
      ProcessUrlDirectoryStaysOnBaseHost(baseUrl, relativeUrl);
    }
  }

  lemma ProcessUrlDirectoryStaysOnBaseHost(baseUrl: string, relativeUrl: string)
    requires relativeUrl != "" && !Blacklisted(relativeUrl)
    requires !IsHttpUrl(relativeUrl) && !StartsWith(relativeUrl, "/")
    requires UrlSplit.Parse(baseUrl).scheme != "" && UrlSplit.Parse(baseUrl).netloc != ""
    ensures ProcessUrl(baseUrl, relativeUrl).Some?
    ensures UrlSplit.Parse(ProcessUrl(baseUrl, relativeUrl).value).scheme == UrlSplit.Parse(baseUrl).scheme
    ensures UrlSplit.Parse(ProcessUrl(baseUrl, relativeUrl).value).netloc == UrlSplit.Parse(baseUrl).netloc
  {
    var base := UrlSplit.Parse(baseUrl);
    UrlSplit.ParsedScheme(baseUrl);
    ProcessUrlJoinsDirectory(baseUrl, relativeUrl);
    DirectoryIsRooted(base.path);
    var rest := Directory(base.path) + relativeUrl;
    AppendAssoc(base.scheme + "://" + base.netloc, Directory(base.path), relativeUrl);
    UrlSplit.ParseComposed(base.scheme, base.netloc, rest);
  }

  /** A scheme-relative reference takes the base's scheme and keeps its own host. */
  lemma ProcessUrlSchemeRelative(baseUrl: string, relativeUrl: string)
    requires baseUrl != "" && StartsWith(relativeUrl, "//")
    ensures ProcessUrl(baseUrl, relativeUrl) == Some(UrlSplit.Parse(baseUrl).scheme + ":" + relativeUrl)
  {
    assert !IsHttpUrl(relativeUrl);
    forall b | b in Blacklist
      ensures !StartsWith(relativeUrl, b)
    {
      assert relativeUrl[0] == '/';
    }
  }

  /** An `http://` or `https://` reference is returned as it is, whatever the base. */
  lemma ProcessUrlAbsolute(baseUrl: string, relativeUrl: string)
    requires baseUrl != "" && IsHttpUrl(relativeUrl)
    ensures ProcessUrl(baseUrl, relativeUrl) == Some(relativeUrl)
  {
    NotBlacklisted(relativeUrl);
  }

  /** A root-relative reference replaces the whole path of the base. */
  lemma ProcessUrlRootRelative(baseUrl: string, relativeUrl: string)
    requires baseUrl != "" && StartsWith(relativeUrl, "/") && !StartsWith(relativeUrl, "//")
    ensures var base := UrlSplit.Parse(baseUrl);
      ProcessUrl(baseUrl, relativeUrl) == Some(base.scheme + "://" + base.netloc + relativeUrl)
  {
    NotBlacklisted(relativeUrl);
    NotHttpUrl(relativeUrl);
  }

  /** Against `https://host/x/y`, "/foo/bar" resolves to `https://host/foo/bar`. */
  lemma ResolveRootExample(host: string)
    ensures Resolve(UrlSplit.Parts("https", host, "/x/y"), "/foo/bar") == "https://" + host + "/foo/bar"
  {
    NotHttpUrl("/foo/bar");
    NotPrefixAt("/foo/bar", "//", 1);
  }

  /** Against `https://host/x/y`, "baz" resolves to `https://host/x/baz`. */
  lemma ResolveDirectoryExample(host: string, path: string)
    requires path == "/x/y"
    ensures Resolve(UrlSplit.Parts("https", host, path), "baz") == "https://" + host + "/x/baz"
  {
    NotHttpUrl("baz");
    NotPrefixAt("baz", "/", 0);
    ResolveJoinsDirectory(UrlSplit.Parts("https", host, path), "baz");
    assert LastIndexOf(path, '/') == 2;
    assert Directory(path) == "/x/";
  }

  /** Against `https://host`, "baz" resolves to `https://host/baz`. */
  lemma ResolveBareHostExample(host: string)
    ensures Resolve(UrlSplit.Parts("https", host, ""), "baz") == "https://" + host + "/baz"
  {
    NotHttpUrl("baz");
    NotPrefixAt("baz", "/", 0);
    ResolveJoinsDirectory(UrlSplit.Parts("https", host, ""), "baz");
  }

  /** Against `https://host/x/y`, a scheme-relative "//rest" takes the base's scheme only. */
  lemma ResolveSchemeRelativeExample(host: string, rest: string)
    ensures Resolve(UrlSplit.Parts("https", host, "/x/y"), "//" + rest) == "https://" + rest
  {
    NotHttpUrl("//" + rest);
    assert ("//" + rest)[..2] == "//";
  }

  // ------------------------------------------------------ find_last_occurrences

  /**
   * Every index at or after `from` where `sub` occurs in `s`, in increasing
   * order, by looking at one index after the other.
   */
  function Occurrences(s: string, sub: string, from: nat): seq<nat>
    decreases |s| + 1 - from
  {
    if from > |s| then []
    else (if OccursAt(s, sub, from) then [from] else []) + Occurrences(s, sub, from + 1)
  }

  lemma {:induction false} OccurrencesSpec(s: string, sub: string, from: nat)
    ensures forall k :: 0 <= k < |Occurrences(s, sub, from)| ==>
      from <= Occurrences(s, sub, from)[k] && OccursAt(s, sub, Occurrences(s, sub, from)[k])
    ensures forall i, j :: 0 <= i < j < |Occurrences(s, sub, from)| ==>
      Occurrences(s, sub, from)[i] < Occurrences(s, sub, from)[j]
    ensures forall i :: from <= i && OccursAt(s, sub, i) ==> i in Occurrences(s, sub, from)
    decreases |s| + 1 - from
  {
    if from <= |s| {
      OccurrencesSpec(s, sub, from + 1);
    }
  }

  lemma {:induction false} OccurrencesSkip(s: string, sub: string, from: nat, to: nat)
    requires from <= to <= |s| + 1
    requires forall i :: from <= i < to ==> !OccursAt(s, sub, i)
    ensures Occurrences(s, sub, from) == Occurrences(s, sub, to)
    decreases (to as int) - from
  {
    if from < to {
      OccurrencesSkip(s, sub, from + 1, to);
    }
  }

  /** One `find` call jumps to the next occurrence, or shows there is none. */
  lemma FindJump(s: string, sub: string, from: nat)
    ensures Find(s, sub, from) == -1 ==> Occurrences(s, sub, from) == []
    ensures Find(s, sub, from) != -1 ==>
      Occurrences(s, sub, from) == [Find(s, sub, from) as nat] + Occurrences(s, sub, Find(s, sub, from) + 1)
  {
    var p := Find(s, sub, from);
    if from <= |s| {
      if p == -1 {
        OccurrencesSkip(s, sub, from, |s| + 1);
      } else {
        OccurrencesSkip(s, sub, from, p);
      }
    }
  }

  /** All start positions of `sub` in `s`, overlapping ones included, found with repeated `find`. */
  method FindLastOccurrences(s: string, sub: string) returns (positions: seq<nat>)
    ensures positions == Occurrences(s, sub, 0)
    ensures forall i, j :: 0 <= i < j < |positions| ==> positions[i] < positions[j]
    ensures forall k :: 0 <= k < |positions| ==> OccursAt(s, sub, positions[k])
    ensures forall i :: OccursAt(s, sub, i) ==> i in positions
  {
    positions := [];
    var lastPos := -1;
    while true
      invariant -1 <= lastPos <= |s|
      invariant positions + Occurrences(s, sub, lastPos + 1) == Occurrences(s, sub, 0)
      decreases |s| - lastPos
    {
      var pos := Find(s, sub, lastPos + 1);
      FindJump(s, sub, lastPos + 1);
      if pos == -1 {
        break;
      }
      var found: nat := pos;
      ghost var later := Occurrences(s, sub, found + 1);
      assert Occurrences(s, sub, lastPos + 1) == [found] + later;
      AppendAssoc(positions, [found], later);
      lastPos := found;
      positions := positions + [found];
    }
    OccurrencesSpec(s, sub, 0);
  }

  // ---------------------------------------------------------------- is_api_path

  /** Some pattern is in, starts or ends the path (the loop of `is_api_path`). */
  predicate MatchesAnyPattern(path: string, patterns: seq<string>)
    decreases |patterns|
  {
    patterns != [] &&
    (Contains(path, patterns[0]) || StartsWith(path, patterns[0]) || EndsWith(path, patterns[0])
     || MatchesAnyPattern(path, patterns[1..]))
  }

  /** The prefix and suffix tests of `is_api_path` add nothing to the substring test. */
  predicate IsApiPath(url: string, apiPatterns: seq<string>)
    ensures IsApiPath(url, apiPatterns) <==>
      url != "" && exists p :: p in apiPatterns && Contains(UrlSplit.Parse(url).path, p)
  {
    if url == "" || apiPatterns == [] then false
    else
      MatchesAnyPatternIsSubstring(UrlSplit.Parse(url).path, apiPatterns);
      MatchesAnyPattern(UrlSplit.Parse(url).path, apiPatterns)
  }

  lemma {:induction false} MatchesAnyPatternIsSubstring(path: string, patterns: seq<string>)
    ensures MatchesAnyPattern(path, patterns) <==> exists p :: p in patterns && Contains(path, p)
    decreases |patterns|
  {
    if patterns != [] {
      MatchesAnyPatternIsSubstring(path, patterns[1..]);
      PrefixSuffixAreSubstrings(path, patterns[0]);
      assert forall p :: p in patterns <==> p == patterns[0] || p in patterns[1..];
    }
  }
}
