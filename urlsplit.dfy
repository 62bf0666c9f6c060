/**
 * The part of Python's `urllib.parse.urlparse` that the pipeline reads: the
 * scheme, the network location and the path of a URL string.
 *
 * The scheme is the text before the first ':' when that text is non-empty,
 * starts with an ASCII letter and contains only letters, digits, '+', '-' and
 * '.'; it is lower-cased. The network location follows a "//" and runs up to
 * the first '/', '?' or '#'. The path runs from there up to the first '?' or
 * '#'.
 */
module UrlSplit {
  import opened Text

  datatype Parts = Parts(scheme: string, netloc: string, path: string)

  predicate IsAsciiLetter(c: char) {
    'a' <= c <= 'z' || 'A' <= c <= 'Z'
  }

  predicate IsSchemeChar(c: char) {
    IsAsciiLetter(c) || '0' <= c <= '9' || c == '+' || c == '-' || c == '.'
  }

  /** The text before the first ':' qualifies as a scheme. */
  predicate HasScheme(url: string) {
    var i := IndexOfAny(url, {':'});
    0 < i < |url| && IsAsciiLetter(url[0]) && forall k :: 0 <= k < i ==> IsSchemeChar(url[k])
  }

  /** Splits a "//netloc..." remainder into the network location and what follows it. */
  function SplitNetloc(rest: string): (r: (string, string))
    ensures forall k :: 0 <= k < |r.0| ==> r.0[k] !in {'/', '?', '#'}
    ensures r.1 == [] || r.1[0] in {'/', '?', '#'} || !StartsWith(rest, "//")
  {
    if StartsWith(rest, "//") then
      var t := rest[2..];
      var d := IndexOfAny(t, {'/', '?', '#'});
      (t[..d], t[d..])
    else ("", rest)
  }

  /** Splits off the scheme, lower-cased, when the URL has one. */
  function SplitScheme(url: string): (string, string) {
    var colon := IndexOfAny(url, {':'});
    if HasScheme(url) then (ToLower(url[..colon]), url[colon + 1..]) else ("", url)
  }

  /** The path: everything before the query or the fragment. */
  function PathOf(tail: string): (path: string)
    ensures forall k :: 0 <= k < |path| ==> path[k] !in {'?', '#'}
  {
    tail[..IndexOfAny(tail, {'?', '#'})]
  }

  function Parse(url: string): (p: Parts)
    ensures forall k :: 0 <= k < |p.netloc| ==> p.netloc[k] !in {'/', '?', '#'}
    ensures forall k :: 0 <= k < |p.path| ==> p.path[k] !in {'?', '#'}
    ensures p.netloc != "" ==> p.path == "" || p.path[0] == '/'
    ensures p.netloc != "" ==> url != ""
  {
    var (scheme, rest) := SplitScheme(url);
    var (netloc, tail) := SplitNetloc(rest);
    Parts(scheme, netloc, PathOf(tail))
  }

  /** A scheme as `Parse` returns it: non-empty, lower-case, scheme characters only. */
  predicate IsLowerScheme(s: string) {
    s != [] && IsAsciiLetter(s[0]) && forall k :: 0 <= k < |s| ==> IsSchemeChar(s[k]) && !('A' <= s[k] <= 'Z')
  }

  lemma ToLowerOfLower(s: string)
    requires forall k :: 0 <= k < |s| ==> !('A' <= s[k] <= 'Z')
    ensures ToLower(s) == s
  {
  }

  /** The scheme part of any parse is empty or a lower-case scheme. */
  lemma ParsedScheme(url: string)
    ensures Parse(url).scheme == "" || IsLowerScheme(Parse(url).scheme)
  {
  }

  lemma SplitSchemeComposed(scheme: string, tail: string)
    requires IsLowerScheme(scheme)
    ensures SplitScheme(scheme + ":" + tail) == (scheme, tail)
  {
    var url := scheme + ":" + tail;
    assert url == scheme + (":" + tail);
    IndexOfAnyAppend(scheme, ":" + tail, {':'});
    assert url[..|scheme|] == scheme;
    ToLowerOfLower(scheme);
    assert url[|scheme| + 1..] == tail;
  }

  lemma SplitNetlocComposed(netloc: string, rest: string)
    requires forall k :: 0 <= k < |netloc| ==> netloc[k] !in {'/', '?', '#'}
    requires rest == [] || rest[0] == '/'
    ensures SplitNetloc("//" + netloc + rest) == (netloc, rest)
  {
    var after := "//" + netloc + rest;
    assert StartsWith(after, "//");
    assert after[2..] == netloc + rest;
    IndexOfAnyAppend(netloc, rest, {'/', '?', '#'});
    assert (netloc + rest)[..|netloc|] == netloc;
    assert (netloc + rest)[|netloc|..] == rest;
  }

  /** Parsing `scheme + "://" + netloc + rest` gives back its parts. */
  lemma ParseComposed(scheme: string, netloc: string, rest: string)
    requires IsLowerScheme(scheme)
    requires forall k :: 0 <= k < |netloc| ==> netloc[k] !in {'/', '?', '#'}
    requires rest == [] || rest[0] == '/'
    ensures Parse(scheme + "://" + netloc + rest).scheme == scheme
    ensures Parse(scheme + "://" + netloc + rest).netloc == netloc
    ensures (forall k :: 0 <= k < |rest| ==> rest[k] !in {'?', '#'}) ==> Parse(scheme + "://" + netloc + rest).path == rest
  {
    assert scheme + "://" + netloc + rest == scheme + ":" + ("//" + netloc + rest);
    SplitSchemeComposed(scheme, "//" + netloc + rest);
    SplitNetlocComposed(netloc, rest);
    if forall k :: 0 <= k < |rest| ==> rest[k] !in {'?', '#'} {
      IndexOfAnyLeast(rest, {'?', '#'}, |rest|);
    }
  }
}
