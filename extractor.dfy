/**
 * The API extractor of `apifinder/extractor.py`. The regular expressions are
 * not modelled: each match of the composite API pattern is a `PatternMatch`
 * (its whole text, its fetch/axios group and its jQuery-AJAX group), each
 * `url(...)` capture of the CSS pattern is a string, and the `\b`-delimited
 * dictionary search is the parameter `wordMatch(pattern, text)`.
 */
module Extractor {
  import opened Wrappers
  import opened Text
  import opened Seqs
  import Utils

  /** A finding: `("method", verb)`, `("url", value)` or `("url", None)`. */
  datatype Finding = Method(verb: string) | Url(value: string) | UnresolvedUrl

  /**
   * One match of the API pattern. An empty group is a group that did not
   * take part in the match (both are falsy in the source).
   */
  datatype PatternMatch = PatternMatch(text: string, fetchArg: string, ajaxUrl: string)

  const Verbs: seq<string> := ["GET", "POST", "PUT", "DELETE", "PATCH", "OPTIONS", "HEAD"]

  const BasicPatterns: seq<string> := ["/api/", "/v1/", "/v2/", "/rest/", "/graphql", "/rpc/"]

  // ------------------------------------------------------------ _is_valid_api

  predicate HasBasicPattern(url: string) {
    exists k :: 0 <= k < |BasicPatterns| && Contains(ToLower(url), BasicPatterns[k])
  }

  /** What the gate asks of a candidate, apart from novelty. */
  predicate LooksLikeApi(dictionary: seq<string>, url: string) {
    url != "" && (HasBasicPattern(url) || Utils.IsApiPath(url, dictionary))
  }

  /** The decision of `_is_valid_api` against the set recorded so far. */
  predicate Accepts(found: set<string>, dictionary: seq<string>, url: string) {
    url !in found && LooksLikeApi(dictionary, url)
  }

  /**
   * The gate applied to candidates one after the other: the accepted
   * candidates in order, and the recorded set afterwards.
   */
  function GatePass(found: set<string>, dictionary: seq<string>, candidates: seq<string>): (seq<string>, set<string>)
    decreases |candidates|
  {
    if candidates == [] then ([], found)
    else
      var (accepted, recorded) := GatePass(found, dictionary, candidates[..|candidates| - 1]);
      var c := candidates[|candidates| - 1];
      if Accepts(recorded, dictionary, c) then (accepted + [c], recorded + {c}) else (accepted, recorded)
  }

  /** The candidates the gate would take if nothing had been recorded. */
  function Eligible(dictionary: seq<string>, candidates: seq<string>): seq<string>
    decreases |candidates|
  {
    if candidates == [] then []
    else
      var c := candidates[|candidates| - 1];
      Eligible(dictionary, candidates[..|candidates| - 1]) + (if LooksLikeApi(dictionary, c) then [c] else [])
  }

  /**
   * The recorded set grows by exactly the accepted candidates, none of which
   * had been recorded before, and no candidate is accepted twice.
   */
  lemma {:induction false} GatePassRecords(found: set<string>, dictionary: seq<string>, candidates: seq<string>)
    ensures GatePass(found, dictionary, candidates).1 == found + Elements(GatePass(found, dictionary, candidates).0)
    ensures forall x :: x in GatePass(found, dictionary, candidates).0 ==> x !in found
    ensures NoDup(GatePass(found, dictionary, candidates).0)
    decreases |candidates|
  {
    if candidates != [] {
      var prefix := candidates[..|candidates| - 1];
      GatePassRecords(found, dictionary, prefix);
      var (accepted, recorded) := GatePass(found, dictionary, prefix);
      var c := candidates[|candidates| - 1];
      if Accepts(recorded, dictionary, c) {
        assert Elements(accepted + [c]) == Elements(accepted) + {c};
      }
    }
  }

  /**
   * Reference definition of the gate over a run of candidates: the eligible
   * candidates not recorded beforehand, each kept at its first occurrence.
   */
  lemma {:induction false} GatePassIsDedup(found: set<string>, dictionary: seq<string>, candidates: seq<string>)
    ensures GatePass(found, dictionary, candidates).0 == Dedup(Without(Eligible(dictionary, candidates), found))
    decreases |candidates|
  {
    if candidates != [] {
      var prefix := candidates[..|candidates| - 1];
      var c := candidates[|candidates| - 1];
      GatePassIsDedup(found, dictionary, prefix);
      GatePassRecords(found, dictionary, prefix);
      var e := Eligible(dictionary, prefix);
      if LooksLikeApi(dictionary, c) {
        assert Eligible(dictionary, candidates) == e + [c];
        WithoutSnoc(e, c, found);
        var w := Without(e, found);
        var g := GatePass(found, dictionary, prefix);
        assert GatePass(found, dictionary, candidates).0 == if Accepts(g.1, dictionary, c) then g.0 + [c] else g.0;
        if c !in found {
          DedupSnoc(w, c);
          assert Accepts(g.1, dictionary, c) <==> c !in Dedup(w);
          assert Without(Eligible(dictionary, candidates), found) == w + [c];
        } else {
          assert !Accepts(g.1, dictionary, c);
          assert Without(Eligible(dictionary, candidates), found) == w;
        }
      } else {
        assert Eligible(dictionary, candidates) == e;
      }
    }
  }

  /**
   * Running the gate over `a` and then, with what it recorded, over `b` is
   * running it over `a + b`: the recorded set carries over from call to call,
   * so a literal accepted once is never accepted again.
   */
  lemma {:induction false} GatePassCompose(found: set<string>, dictionary: seq<string>, a: seq<string>, b: seq<string>)
    ensures var (acc1, rec1) := GatePass(found, dictionary, a);
            var (acc2, rec2) := GatePass(rec1, dictionary, b);
            GatePass(found, dictionary, a + b) == (acc1 + acc2, rec2)
    decreases |b|
  {
    if b == [] {
      assert a + b == a;
      var (acc1, rec1) := GatePass(found, dictionary, a);
      assert acc1 + [] == acc1;
    } else {
      var b' := b[..|b| - 1];
      GatePassCompose(found, dictionary, a, b');
      assert (a + b)[..|a + b| - 1] == a + b';
      assert (a + b)[|a + b| - 1] == b[|b| - 1];
      var (acc1, rec1) := GatePass(found, dictionary, a);
      var (acc2, rec2) := GatePass(rec1, dictionary, b');
      var c := b[|b| - 1];
      if Accepts(rec2, dictionary, c) {
        assert acc1 + (acc2 + [c]) == (acc1 + acc2) + [c];
      }
    }
  }

  // ------------------------------------------------------------- extract_apis

  /** `match.group().strip('"').strip("'")`. */
  function Stripped(text: string): string {
    Strip(Strip(text, '"'), '\'')
  }

  /** What one match contributes: a verb, or a candidate for the gate. */
  datatype Classification = Verb(name: string) | Candidate(url: string)

  /** The branches of the match loop, in the source's order. */
  function Classify(m: PatternMatch): (r: Classification)
    ensures r.Verb? <==> ToUpper(Stripped(m.text)) in Verbs
    ensures r.Verb? ==> r.name == ToUpper(Stripped(m.text))
    ensures r.Candidate? && m.fetchArg != "" ==> r.url == m.fetchArg
    ensures r.Candidate? && m.fetchArg == "" && m.ajaxUrl != "" ==> r.url == m.ajaxUrl
    ensures r.Candidate? && m.fetchArg == "" && m.ajaxUrl == "" ==> r.url == Stripped(m.text)
  {
    var group := Stripped(m.text);
    if ToUpper(group) in Verbs then Verb(ToUpper(group))
    else if m.fetchArg != "" then Candidate(m.fetchArg)
    else if m.ajaxUrl != "" then Candidate(m.ajaxUrl)
    else Candidate(group)
  }

  /** The match loop of `extract_apis`: the findings and the recorded set afterwards. */
  function RegexPass(found: set<string>, dictionary: seq<string>, matches: seq<PatternMatch>): (seq<Finding>, set<string>)
    decreases |matches|
  {
    if matches == [] then ([], found)
    else
      var (findings, recorded) := RegexPass(found, dictionary, matches[..|matches| - 1]);
      match Classify(matches[|matches| - 1])
      case Verb(v) => (findings + [Method(v)], recorded)
      case Candidate(c) =>
        if Accepts(recorded, dictionary, c) then (findings + [Url(c)], recorded + {c}) else (findings, recorded)
  }

  /** The candidates of the non-verb matches, in order. */
  function Candidates(matches: seq<PatternMatch>): seq<string>
    decreases |matches|
  {
    if matches == [] then []
    else
      var rest := Candidates(matches[..|matches| - 1]);
      match Classify(matches[|matches| - 1])
      case Verb(_) => rest
      case Candidate(c) => rest + [c]
  }

  /** The verbs of the verb matches, in order. */
  function VerbsOf(matches: seq<PatternMatch>): seq<string>
    decreases |matches|
  {
    if matches == [] then []
    else
      var rest := VerbsOf(matches[..|matches| - 1]);
      match Classify(matches[|matches| - 1])
      case Verb(v) => rest + [v]
      case Candidate(_) => rest
  }

  /** The values of the `url` findings, in order. */
  function UrlValues(findings: seq<Finding>): seq<string>
    decreases |findings|
  {
    if findings == [] then []
    else
      var rest := UrlValues(findings[..|findings| - 1]);
      match findings[|findings| - 1]
      case Url(v) => rest + [v]
      case _ => rest
  }

  /** The verbs of the `method` findings, in order. */
  function MethodVerbs(findings: seq<Finding>): seq<string>
    decreases |findings|
  {
    if findings == [] then []
    else
      var rest := MethodVerbs(findings[..|findings| - 1]);
      match findings[|findings| - 1]
      case Method(v) => rest + [v]
      case _ => rest
  }

  /**
   * The match loop runs the gate over the candidates of the non-verb
   * matches: its `url` findings are exactly the accepted candidates, and it
   * records what the gate records.
   */
  lemma {:induction false} RegexPassIsGatePass(found: set<string>, dictionary: seq<string>, matches: seq<PatternMatch>)
    ensures UrlValues(RegexPass(found, dictionary, matches).0) == GatePass(found, dictionary, Candidates(matches)).0
    ensures RegexPass(found, dictionary, matches).1 == GatePass(found, dictionary, Candidates(matches)).1
    decreases |matches|
  {
    if matches != [] {
      var prefix := matches[..|matches| - 1];
      RegexPassIsGatePass(found, dictionary, prefix);
      var findings := RegexPass(found, dictionary, prefix).0;
      match Classify(matches[|matches| - 1])
      case Verb(v) => {
        UrlValuesSnoc(findings, Method(v));
      }
      case Candidate(c) => {
        GatePassSnoc(found, dictionary, Candidates(prefix), c);
        UrlValuesSnoc(findings, Url(c));
      }
    }
  }

  lemma GatePassSnoc(found: set<string>, dictionary: seq<string>, candidates: seq<string>, c: string)
    ensures GatePass(found, dictionary, candidates + [c])
            == var (accepted, recorded) := GatePass(found, dictionary, candidates);
               if Accepts(recorded, dictionary, c) then (accepted + [c], recorded + {c}) else (accepted, recorded)
  {
    assert (candidates + [c])[..|candidates|] == candidates;
  }

  lemma UrlValuesSnoc(findings: seq<Finding>, f: Finding)
    ensures UrlValues(findings + [f]) == UrlValues(findings) + (if f.Url? then [f.value] else [])
  {
    assert (findings + [f])[..|findings|] == findings;
  }

  /**
   * The match loop emits one `method` finding per verb match, in order, at
   * most one finding per match, and never an unresolved one.
   */
  lemma {:induction false} RegexPassVerbs(found: set<string>, dictionary: seq<string>, matches: seq<PatternMatch>)
    ensures MethodVerbs(RegexPass(found, dictionary, matches).0) == VerbsOf(matches)
    ensures |RegexPass(found, dictionary, matches).0| <= |matches|
    ensures UnresolvedUrl !in RegexPass(found, dictionary, matches).0
    decreases |matches|
  {
    if matches != [] {
      var prefix := matches[..|matches| - 1];
      RegexPassVerbs(found, dictionary, prefix);
      var (findings, recorded) := RegexPass(found, dictionary, prefix);
      match Classify(matches[|matches| - 1])
      case Verb(v) => {
        assert (findings + [Method(v)])[..|findings|] == findings;
      }
      case Candidate(c) => {
        assert (findings + [Url(c)])[..|findings|] == findings;
      }
    }
  }

  /** Stripping quote characters keeps every other character. */
  lemma {:induction false} StripKeeps(s: string, c: char, d: char)
    requires d != c && d in s
    ensures d in Strip(s, c)
  {
    TrimStartKeeps(s, c, d);
    TrimEndKeeps(TrimStart(s, c), c, d);
  }

  lemma {:induction false} TrimStartKeeps(s: string, c: char, d: char)
    requires d != c && d in s
    ensures d in TrimStart(s, c)
    decreases |s|
  {
    if s[0] == c {
      assert d in s[1..];
      TrimStartKeeps(s[1..], c, d);
    }
  }

  lemma {:induction false} TrimEndKeeps(s: string, c: char, d: char)
    requires d != c && d in s
    ensures d in TrimEnd(s, c)
    decreases |s|
  {
    if s[|s| - 1] == c {
      assert d in s[..|s| - 1];
      TrimEndKeeps(s[..|s| - 1], c, d);
    }
  }

  /**
   * A match whose text holds a ':' is never classified as a verb. The verb
   * alternative of the composite pattern always matches the `method:` prefix
   * with it, so the verb branch is not reached from real text.
   */
  lemma ColonMatchIsNoVerb(m: PatternMatch)
    requires ':' in m.text
    ensures !Classify(m).Verb?
  {
    StripKeeps(m.text, '"', ':');
    StripKeeps(Strip(m.text, '"'), '\'', ':');
    var group := Stripped(m.text);
    var k :| 0 <= k < |group| && group[k] == ':';
    assert ToUpper(group)[k] == ':';
    forall v | v in Verbs
      ensures ToUpper(group) != v
    {
      assert ':' !in v;
    }
  }

  // -------------------------------------------------- _check_dictionary_matches

  /** What `replace` turns one character into. */
  function SimplifiedChar(c: char): string {
    if c == '"' || c == '\'' then " " else if c == '/' then " / " else [c]
  }

  /**
   * `content.replace('"', ' ').replace("'", ' ').replace('/', ' / ')`: no
   * replacement produces a character a later one replaces, so the chain is
   * one character-wise rewrite.
   */
  function Simplified(content: string): (r: string)
    ensures |r| >= |content|
    ensures forall k :: 0 <= k < |r| ==> r[k] != '"' && r[k] != '\''
    decreases |content|
  {
    if content == [] then []
    else Simplified(content[..|content| - 1]) + SimplifiedChar(content[|content| - 1])
  }

  /**
   * The dictionary loop: each entry the word search finds is appended as a
   * `url` finding unless an equal one is already in the list, and recorded.
   */
  function DictionaryPass(patterns: seq<string>, wordMatch: (string, string) -> bool, text: string,
                          findings: seq<Finding>, found: set<string>): (seq<Finding>, set<string>)
    decreases |patterns|
  {
    if patterns == [] then (findings, found)
    else
      var (fs, recorded) := DictionaryPass(patterns[..|patterns| - 1], wordMatch, text, findings, found);
      var p := patterns[|patterns| - 1];
      if wordMatch(p, text) && Url(p) !in fs then (fs + [Url(p)], recorded + {p}) else (fs, recorded)
  }

  /** The entries found in `text` that no `url` finding of `findings` already names. */
  function DictionaryHits(patterns: seq<string>, wordMatch: (string, string) -> bool, text: string,
                          findings: seq<Finding>): set<string>
  {
    set p | p in patterns && wordMatch(p, text) && Url(p) !in findings
  }

  /**
   * The dictionary pass keeps the findings it was given as a prefix; what it
   * appends are `url` findings of entries present in the text, each not in
   * the list before it; and every entry present ends up in the list.
   */
  lemma {:induction false} DictionaryPassExtends(patterns: seq<string>, wordMatch: (string, string) -> bool, text: string,
                                                 findings: seq<Finding>, found: set<string>)
    ensures var (fs, _) := DictionaryPass(patterns, wordMatch, text, findings, found);
            |findings| <= |fs| && fs[..|findings|] == findings
    ensures var (fs, _) := DictionaryPass(patterns, wordMatch, text, findings, found);
            forall k :: |findings| <= k < |fs| ==>
              fs[k].Url? && fs[k].value in patterns && wordMatch(fs[k].value, text) && fs[k] !in fs[..k]
    ensures var (fs, _) := DictionaryPass(patterns, wordMatch, text, findings, found);
            forall p :: p in patterns && wordMatch(p, text) ==> Url(p) in fs
    decreases |patterns|
  {
    if patterns != [] {
      var prefix := patterns[..|patterns| - 1];
      var p := patterns[|patterns| - 1];
      DictionaryPassExtends(prefix, wordMatch, text, findings, found);
      var (fs, recorded) := DictionaryPass(prefix, wordMatch, text, findings, found);
      assert forall q :: q in patterns <==> q in prefix || q == p;
      if wordMatch(p, text) && Url(p) !in fs {
        var fs' := fs + [Url(p)];
        assert fs'[..|fs|] == fs;
        assert fs'[..|findings|] == findings;
      }
    }
  }

  lemma DictionaryHitsStep(patterns: seq<string>, wordMatch: (string, string) -> bool, text: string,
                           findings: seq<Finding>)
    requires patterns != []
    ensures var p := patterns[|patterns| - 1];
            DictionaryHits(patterns, wordMatch, text, findings) ==
            DictionaryHits(patterns[..|patterns| - 1], wordMatch, text, findings) +
            (if wordMatch(p, text) && Url(p) !in findings then {p} else {})
  {
    var prefix := patterns[..|patterns| - 1];
    assert forall q :: q in patterns <==> q in prefix || q == patterns[|patterns| - 1];
  }

  /** The recorded set grows by exactly the entries found that were not already listed. */
  lemma {:induction false} DictionaryPassRecords(patterns: seq<string>, wordMatch: (string, string) -> bool, text: string,
                                                 findings: seq<Finding>, found: set<string>)
    ensures DictionaryPass(patterns, wordMatch, text, findings, found).1 ==
            found + DictionaryHits(patterns, wordMatch, text, findings)
    decreases |patterns|
  {
    if patterns != [] {
      var prefix := patterns[..|patterns| - 1];
      var p := patterns[|patterns| - 1];
      DictionaryPassRecords(prefix, wordMatch, text, findings, found);
      DictionaryHitsStep(patterns, wordMatch, text, findings);
      var fs := DictionaryPass(prefix, wordMatch, text, findings, found).0;
      if wordMatch(p, text) && Url(p) in fs && Url(p) !in findings {
        DictionaryPassNewUrl(prefix, wordMatch, text, findings, found, p);
      } else if wordMatch(p, text) && Url(p) !in fs {
        DictionaryPassExtends(prefix, wordMatch, text, findings, found);
        assert Url(p) !in findings by {
          assert forall k :: 0 <= k < |findings| ==> findings[k] == fs[k];
        }
      }
    }
  }

  /** A `url` finding the pass added names an entry present in the text. */
  lemma {:induction false} DictionaryPassNewUrl(patterns: seq<string>, wordMatch: (string, string) -> bool, text: string,
                             findings: seq<Finding>, found: set<string>, p: string)
    requires Url(p) in DictionaryPass(patterns, wordMatch, text, findings, found).0
    requires Url(p) !in findings
    ensures p in patterns && wordMatch(p, text)
  {
    DictionaryPassExtends(patterns, wordMatch, text, findings, found);
    var fs := DictionaryPass(patterns, wordMatch, text, findings, found).0;
    forall j | 0 <= j < |findings|
      ensures fs[j] != Url(p)
    {
      assert fs[j] == fs[..|findings|][j];
    }
    var k :| |findings| <= k < |fs| && fs[k] == Url(p);
  }

  /**
   * The dictionary pass does not consult the recorded set: an entry recorded
   * by an earlier call is emitted again.
   */
  lemma {:induction false} DictionaryPassIgnoresFound(patterns: seq<string>, wordMatch: (string, string) -> bool, text: string,
                                                      findings: seq<Finding>, found1: set<string>, found2: set<string>)
    ensures DictionaryPass(patterns, wordMatch, text, findings, found1).0 ==
            DictionaryPass(patterns, wordMatch, text, findings, found2).0
    decreases |patterns|
  {
    if patterns != [] {
      DictionaryPassIgnoresFound(patterns[..|patterns| - 1], wordMatch, text, findings, found1, found2);
    }
  }

  /** `extract_apis` as a whole: the match loop, then the dictionary pass when there is a dictionary. */
  function ExtractSpec(found: set<string>, dictionary: seq<string>, wordMatch: (string, string) -> bool,
                       content: string, matches: seq<PatternMatch>): (seq<Finding>, set<string>)
  {
    if content == "" then ([], found)
    else
      var (findings, recorded) := RegexPass(found, dictionary, matches);
      if dictionary == [] then (findings, recorded)
      else DictionaryPass(dictionary, wordMatch, Simplified(content), findings, recorded)
  }

  /** A `url` value listed by `UrlValues` comes from a `url` finding. */
  lemma {:induction false} UrlValuesAreFindings(findings: seq<Finding>)
    ensures forall x :: x in UrlValues(findings) ==> Url(x) in findings
    decreases |findings|
  {
    if findings != [] {
      var prefix := findings[..|findings| - 1];
      UrlValuesAreFindings(prefix);
      assert forall f :: f in prefix ==> f in findings;
    }
  }

  /**
   * One call of `extract_apis` only adds to the recorded set, and every
   * literal it adds comes out of that call as a `url` finding.
   */
  lemma ExtractSpecRecords(found: set<string>, dictionary: seq<string>, wordMatch: (string, string) -> bool,
                           content: string, matches: seq<PatternMatch>)
    ensures found <= ExtractSpec(found, dictionary, wordMatch, content, matches).1
    ensures var (findings, recorded) := ExtractSpec(found, dictionary, wordMatch, content, matches);
            forall x :: x in recorded && x !in found ==> Url(x) in findings
  {
    if content != "" {
      RegexPassIsGatePass(found, dictionary, matches);
      GatePassRecords(found, dictionary, Candidates(matches));
      var (findings, recorded) := RegexPass(found, dictionary, matches);
      UrlValuesAreFindings(findings);
      if dictionary != [] {
        var text := Simplified(content);
        DictionaryPassExtends(dictionary, wordMatch, text, findings, recorded);
        DictionaryPassRecords(dictionary, wordMatch, text, findings, recorded);
        var (fs, _) := DictionaryPass(dictionary, wordMatch, text, findings, recorded);
        assert forall f :: f in findings ==> f in fs by {
          assert forall k :: 0 <= k < |findings| ==> fs[..|findings|][k] == fs[k];
        }
      }
    }
  }

  // ------------------------------------------- extract_apis_from_html_elements

  /** The value of each `(kind, value)` element; the kind is ignored. */
  function ElementValues(elements: seq<(string, string)>): seq<string> {
    seq(|elements|, k requires 0 <= k < |elements| => elements[k].1)
  }

  /** The accepted candidates as `url` findings. */
  function AsUrls(values: seq<string>): seq<Finding> {
    seq(|values|, k requires 0 <= k < |values| => Url(values[k]))
  }

  // -------------------------------------------------- extract_apis_from_css

  /**
   * How an accepted `url(...)` capture is reported: resolved against the
   * base when there is one and the capture is not absolute, where a
   * resolution that fails is reported as a `url` finding without a value.
   */
  function CssFinding(baseUrl: string, url: string): (f: Finding)
    ensures baseUrl == "" || Utils.IsHttpUrl(url) ==> f == Url(url)
    ensures baseUrl != "" && !Utils.IsHttpUrl(url) ==> (f == UnresolvedUrl <==> url == "" || Utils.Blacklisted(url))
    ensures f.Url? ==> EndsWith(f.value, url)
  {
    if baseUrl != "" && !Utils.IsHttpUrl(url) then
      match Utils.ProcessUrl(baseUrl, url)
      case Some(v) => Url(v)
      case None => UnresolvedUrl
    else Url(url)
  }

  function ResolvedAll(baseUrl: string, urls: seq<string>): seq<Finding> {
    seq(|urls|, k requires 0 <= k < |urls| => CssFinding(baseUrl, urls[k]))
  }

  /** `extract_apis_from_css` as a whole: the gate on the raw captures, then the dictionary pass. */
  function CssSpec(found: set<string>, dictionary: seq<string>, wordMatch: (string, string) -> bool,
                   cssContent: string, baseUrl: string, urls: seq<string>): (seq<Finding>, set<string>)
  {
    if cssContent == "" then ([], found)
    else
      var (accepted, recorded) := GatePass(found, dictionary, urls);
      DictionaryPass(dictionary, wordMatch, Simplified(cssContent), ResolvedAll(baseUrl, accepted), recorded)
  }

  /**
   * The CSS findings begin with one finding per eligible capture not
   * recorded before, at its first occurrence and in order, each reported as
   * `CssFinding` says: the gate saw the raw capture, not its resolution.
   */
  lemma CssSpecFindings(found: set<string>, dictionary: seq<string>, wordMatch: (string, string) -> bool,
                        cssContent: string, baseUrl: string, urls: seq<string>)
    requires cssContent != ""
    ensures var d := Dedup(Without(Eligible(dictionary, urls), found));
            var (fs, _) := CssSpec(found, dictionary, wordMatch, cssContent, baseUrl, urls);
            |d| <= |fs| && forall k :: 0 <= k < |d| ==> fs[k] == CssFinding(baseUrl, d[k])
    ensures var d := Dedup(Without(Eligible(dictionary, urls), found));
            found + Elements(d) <= CssSpec(found, dictionary, wordMatch, cssContent, baseUrl, urls).1
  {
    GatePassIsDedup(found, dictionary, urls);
    GatePassRecords(found, dictionary, urls);
    var (accepted, recorded) := GatePass(found, dictionary, urls);
    var text := Simplified(cssContent);
    DictionaryPassExtends(dictionary, wordMatch, text, ResolvedAll(baseUrl, accepted), recorded);
    DictionaryPassRecords(dictionary, wordMatch, text, ResolvedAll(baseUrl, accepted), recorded);
    var (fs, _) := CssSpec(found, dictionary, wordMatch, cssContent, baseUrl, urls);
    assert forall k :: 0 <= k < |accepted| ==> fs[k] == fs[..|accepted|][k];
  }

  // ----------------------------------------------------------------- the class

  /** An extractor: the dictionary it was built with and the literals accepted so far. */
  class APIExtractor {
    const apiDictionary: seq<string>
    var foundApis: set<string>

    constructor(apiDictionary: seq<string>)
      ensures this.apiDictionary == apiDictionary && foundApis == {}
    {
      this.apiDictionary := apiDictionary;
      foundApis := {};
    }

    /** `_is_valid_api`: the gate, recording what it accepts. */
    method IsValidApi(url: string) returns (ok: bool)
      modifies this
      ensures ok == Accepts(old(foundApis), apiDictionary, url)
      ensures foundApis == if ok then old(foundApis) + {url} else old(foundApis)
    {
      if url == "" {
        return false;
      }
      if url in foundApis {
        return false;
      }
      var i := 0;
      while i < |BasicPatterns|
        invariant 0 <= i <= |BasicPatterns|
        invariant forall k :: 0 <= k < i ==> !Contains(ToLower(url), BasicPatterns[k])
      {
        if Contains(ToLower(url), BasicPatterns[i]) {
          foundApis := foundApis + {url};
          return true;
        }
        i := i + 1;
      }
      if Utils.IsApiPath(url, apiDictionary) {
        foundApis := foundApis + {url};
        return true;
      }
      return false;
    }

    /** `extract_apis` over the matches of the API pattern in `content`. */
    method ExtractApis(content: string, matches: seq<PatternMatch>, wordMatch: (string, string) -> bool)
      returns (apiInfo: seq<Finding>)
      modifies this
      ensures (apiInfo, foundApis) == ExtractSpec(old(foundApis), apiDictionary, wordMatch, content, matches)
    {
      if content == "" {
        return [];
      }
      apiInfo := [];
      var i := 0;
      while i < |matches|
        invariant 0 <= i <= |matches|
        invariant (apiInfo, foundApis) == RegexPass(old(foundApis), apiDictionary, matches[..i])
      {
        assert matches[..i + 1] == matches[..i] + [matches[i]];
        apiInfo := HandleMatch(old(foundApis), matches[..i], matches[i], apiInfo);
        i := i + 1;
      }
      assert matches[..|matches|] == matches;
      if |apiDictionary| > 0 {
        apiInfo := CheckDictionaryMatches(content, apiInfo, wordMatch);
      }
    }

    /** One turn of the match loop of `extract_apis`, on the branches of the source. */
    method HandleMatch(ghost found0: set<string>, ghost done: seq<PatternMatch>, m: PatternMatch, apiInfo: seq<Finding>)
      returns (apiInfo': seq<Finding>)
      requires (apiInfo, foundApis) == RegexPass(found0, apiDictionary, done)
      modifies this
      ensures (apiInfo', foundApis) == RegexPass(found0, apiDictionary, done + [m])
    {
      assert (done + [m])[..|done|] == done;
      apiInfo' := apiInfo;
      var group := Stripped(m.text);
      if ToUpper(group) in Verbs {
        apiInfo' := apiInfo + [Method(ToUpper(group))];
      } else if m.fetchArg != "" {
        var ok := IsValidApi(m.fetchArg);
        if ok {
          apiInfo' := apiInfo + [Url(m.fetchArg)];
        }
      } else if m.ajaxUrl != "" {
        var ok := IsValidApi(m.ajaxUrl);
        if ok {
          apiInfo' := apiInfo + [Url(m.ajaxUrl)];
        }
      } else if group != "" {
        var ok := IsValidApi(group);
        if ok {
          apiInfo' := apiInfo + [Url(group)];
        }
      }
    }

    /**
     * `_check_dictionary_matches`. The source extends the caller's list in
     * place; here the extended list is returned.
     */
    method CheckDictionaryMatches(content: string, apiInfo: seq<Finding>, wordMatch: (string, string) -> bool)
      returns (extended: seq<Finding>)
      modifies this
      ensures (extended, foundApis) ==
              DictionaryPass(apiDictionary, wordMatch, Simplified(content), apiInfo, old(foundApis))
    {
      var simplified := Simplified(content);
      extended := apiInfo;
      for i := 0 to |apiDictionary|
        invariant (extended, foundApis) ==
                  DictionaryPass(apiDictionary[..i], wordMatch, simplified, apiInfo, old(foundApis))
      {
        var pattern := apiDictionary[i];
        assert apiDictionary[..i + 1][..i] == apiDictionary[..i];
        if wordMatch(pattern, simplified) {
          if Url(pattern) !in extended {
            extended := extended + [Url(pattern)];
            foundApis := foundApis + {pattern};
          }
        }
      }
      assert apiDictionary[..|apiDictionary|] == apiDictionary;
    }

    /** `extract_apis_from_html_elements` over `(kind, value)` pairs. */
    method ExtractApisFromHtmlElements(elements: seq<(string, string)>) returns (apiInfo: seq<Finding>)
      modifies this
      ensures apiInfo == AsUrls(GatePass(old(foundApis), apiDictionary, ElementValues(elements)).0)
      ensures foundApis == GatePass(old(foundApis), apiDictionary, ElementValues(elements)).1
    {
      apiInfo := [];
      ghost var accepted: seq<string> := [];
      for i := 0 to |elements|
        invariant (accepted, foundApis) == GatePass(old(foundApis), apiDictionary, ElementValues(elements[..i]))
        invariant apiInfo == AsUrls(accepted)
      {
        var (_, value) := elements[i];
        assert ElementValues(elements[..i + 1]) == ElementValues(elements[..i]) + [value];
        if value != "" {
          var ok := IsValidApi(value);
          if ok {
            apiInfo := apiInfo + [Url(value)];
            accepted := accepted + [value];
          }
        }
      }
      assert elements[..|elements|] == elements;
    }

    /** `extract_apis_from_css` over the `url(...)` captures of `cssContent`; `baseUrl` "" is no base. */
    method ExtractApisFromCss(cssContent: string, baseUrl: string, urls: seq<string>,
                              wordMatch: (string, string) -> bool) returns (apiInfo: seq<Finding>)
      modifies this
      ensures (apiInfo, foundApis) == CssSpec(old(foundApis), apiDictionary, wordMatch, cssContent, baseUrl, urls)
    {
      apiInfo := [];
      if cssContent == "" {
        return;
      }
      ghost var accepted: seq<string> := [];
      for i := 0 to |urls|
        invariant (accepted, foundApis) == GatePass(old(foundApis), apiDictionary, urls[..i])
        invariant apiInfo == ResolvedAll(baseUrl, accepted)
      {
        var url := urls[i];
        assert urls[..i + 1][..i] == urls[..i];
        if url != "" {
          var ok := IsValidApi(url);
          if ok {
            var finding := Url(url);
            if baseUrl != "" && !Utils.IsHttpUrl(url) {
              finding := match Utils.ProcessUrl(baseUrl, url)
                case Some(v) => Url(v)
                case None => UnresolvedUrl;
            }
            apiInfo := apiInfo + [finding];
            accepted := accepted + [url];
          }
        }
      }
      assert urls[..|urls|] == urls;
      apiInfo := CheckDictionaryMatches(cssContent, apiInfo, wordMatch);
    }
  }
}
