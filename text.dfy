/**
 * The string operations of Python's `str` that the discovery pipeline relies on,
 * with the semantics the source sees: prefix and suffix tests, `find`, `in`,
 * ASCII case mapping, `strip` of one character, `split` and `join` on one
 * separator character.
 */
module Text {

  predicate StartsWith(s: string, prefix: string) {
    |prefix| <= |s| && s[..|prefix|] == prefix
  }

  /** One differing character rules a prefix out. */
  lemma NotPrefixAt(s: string, prefix: string, k: nat)
    requires k < |s| && k < |prefix| && s[k] != prefix[k]
    ensures !StartsWith(s, prefix)
  {
  }

  predicate EndsWith(s: string, suffix: string) {
    |suffix| <= |s| && s[|s| - |suffix|..] == suffix
  }

  /** `sub` occurs in `s` at index `i`. */
  predicate OccursAt(s: string, sub: string, i: int) {
    0 <= i && i + |sub| <= |s| && s[i..i + |sub|] == sub
  }

  /** `s.find(sub, start)`: the least index at or after `start` where `sub` occurs, or -1. */
  function Find(s: string, sub: string, start: nat): (r: int)
    ensures r == -1 || (start <= r && OccursAt(s, sub, r))
    ensures forall i :: start <= i && (r == -1 || i < r) ==> !OccursAt(s, sub, i)
    decreases |s| + 1 - start
  {
    if start > |s| then -1
    else if OccursAt(s, sub, start) then start
    else Find(s, sub, start + 1)
  }

  /** `sub in s`. */
  predicate Contains(s: string, sub: string) {
    Find(s, sub, 0) != -1
  }

  lemma ContainsIff(s: string, sub: string)
    ensures Contains(s, sub) <==> exists i :: OccursAt(s, sub, i)
  {
    if Contains(s, sub) {
      assert OccursAt(s, sub, Find(s, sub, 0));
    }
  }

  lemma ContainsAt(s: string, sub: string, i: int)
    requires OccursAt(s, sub, i)
    ensures Contains(s, sub)
  {
    ContainsIff(s, sub);
  }

  /** A prefix or a suffix is a substring. */
  lemma PrefixSuffixAreSubstrings(s: string, p: string)
    ensures StartsWith(s, p) ==> Contains(s, p)
    ensures EndsWith(s, p) ==> Contains(s, p)
  {
    if StartsWith(s, p) {
      ContainsAt(s, p, 0);
    }
    if EndsWith(s, p) {
      ContainsAt(s, p, |s| - |p|);
    }
  }

  /** Index of the first character of `s` that belongs to `cs`, or `|s|` when there is none. */
  function IndexOfAny(s: string, cs: set<char>): (i: nat)
    ensures i <= |s|
    ensures i < |s| ==> s[i] in cs
    ensures forall k :: 0 <= k < i ==> s[k] !in cs
  {
    if s == [] then 0
    else if s[0] in cs then 0
    else 1 + IndexOfAny(s[1..], cs)
  }

  lemma {:induction false} IndexOfAnyAppend(a: string, b: string, cs: set<char>)
    requires forall k :: 0 <= k < |a| ==> a[k] !in cs
    ensures IndexOfAny(a + b, cs) == |a| + IndexOfAny(b, cs)
  {
    var j := IndexOfAny(b, cs);
    forall k | 0 <= k < |a| + j
      ensures (a + b)[k] !in cs
    {
      if k >= |a| {
        assert (a + b)[k] == b[k - |a|];
      }
    }
    if j < |b| {
      assert (a + b)[|a| + j] == b[j];
    }
    IndexOfAnyLeast(a + b, cs, |a| + j);
  }

  /** The first index of `cs` is determined by the two facts that define it. */
  lemma IndexOfAnyLeast(s: string, cs: set<char>, i: nat)
    requires i <= |s|
    requires i < |s| ==> s[i] in cs
    requires forall k :: 0 <= k < i ==> s[k] !in cs
    ensures IndexOfAny(s, cs) == i
  {
  }

  /** Index of the last occurrence of `c` in `s`, or -1. */
  function LastIndexOf(s: string, c: char): (r: int)
    ensures -1 <= r < |s|
    ensures r == -1 ==> c !in s
    ensures r >= 0 ==> s[r] == c && forall k :: r < k < |s| ==> s[k] != c
  {
    if s == [] then -1
    else if s[|s| - 1] == c then |s| - 1
    else LastIndexOf(s[..|s| - 1], c)
  }

  function LowerChar(c: char): char {
    if 'A' <= c <= 'Z' then (c as int + 32) as char else c
  }

  function UpperChar(c: char): char {
    if 'a' <= c <= 'z' then (c as int - 32) as char else c
  }

  /** `s.lower()` on ASCII letters. */
  function ToLower(s: string): string {
    seq(|s|, i requires 0 <= i < |s| => LowerChar(s[i]))
  }

  /** `s.upper()` on ASCII letters. */
  function ToUpper(s: string): string {
    seq(|s|, i requires 0 <= i < |s| => UpperChar(s[i]))
  }

  function TrimStart(s: string, c: char): string {
    if s != [] && s[0] == c then TrimStart(s[1..], c) else s
  }

  function TrimEnd(s: string, c: char): string {
    if s != [] && s[|s| - 1] == c then TrimEnd(s[..|s| - 1], c) else s
  }

  /** `s.strip(c)` for a single character `c`. */
  function Strip(s: string, c: char): string {
    TrimEnd(TrimStart(s, c), c)
  }

  /** `s.split(c)` for a single separator character. */
  function SplitOn(s: string, c: char): (parts: seq<string>)
    ensures |parts| >= 1
    ensures forall k :: 0 <= k < |parts| ==> c !in parts[k]
    decreases |s|
  {
    var i := IndexOfAny(s, {c});
    if i == |s| then [s] else [s[..i]] + SplitOn(s[i + 1..], c)
  }

  /** `c.join(parts)` for a single separator character. */
  function JoinWith(parts: seq<string>, c: char): string {
    if |parts| == 0 then ""
    else if |parts| == 1 then parts[0]
    else parts[0] + [c] + JoinWith(parts[1..], c)
  }

  /** Joining the pieces of a split gives back the string. */
  lemma {:induction false} JoinSplit(s: string, c: char)
    ensures JoinWith(SplitOn(s, c), c) == s
    decreases |s|
  {
    var i := IndexOfAny(s, {c});
    if i < |s| {
      var rest := SplitOn(s[i + 1..], c);
      JoinSplit(s[i + 1..], c);
      assert SplitOn(s, c) == [s[..i]] + rest;
      assert ([s[..i]] + rest)[1..] == rest;
      assert s == s[..i] + [c] + s[i + 1..];
    }
  }

  lemma {:induction false} JoinDropLast(parts: seq<string>, c: char)
    requires |parts| >= 2
    ensures JoinWith(parts, c) == JoinWith(parts[..|parts| - 1], c) + [c] + parts[|parts| - 1]
  {
    if |parts| > 2 {
      JoinDropLast(parts[1..], c);
      assert parts[1..][..|parts| - 2] == parts[..|parts| - 1][1..];
    }
  }
}
