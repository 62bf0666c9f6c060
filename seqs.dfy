/**
 * Sequence helpers: duplicate-freedom, first index, order-preserving
 * deduplication (the `if x not in seen: seen.add(x); out.append(x)` idiom the
 * source uses several times) and filtering out a set of elements.
 */
module Seqs {

  predicate NoDup<T(==)>(s: seq<T>) {
    forall i, j :: 0 <= i < j < |s| ==> s[i] != s[j]
  }

  /** The elements of a sequence, as a set. */
  function Elements<T>(s: seq<T>): set<T> {
    set x | x in s
  }

  lemma AppendAssoc<T>(a: seq<T>, b: seq<T>, c: seq<T>)
    ensures a + b + c == a + (b + c)
  {
  }

  /** Taking one more element of `b` after a fixed prefix `a`. */
  lemma AppendTakeSnoc<T>(a: seq<T>, b: seq<T>, j: nat)
    requires j < |b|
    ensures a + b[..j + 1] == (a + b[..j]) + [b[j]]
  {
    assert b[..j + 1] == b[..j] + [b[j]];
  }

  lemma ElementsSnoc<T>(s: seq<T>, x: T)
    ensures Elements(s + [x]) == Elements(s) + {x}
  {
  }

  lemma NoDupSnoc<T>(s: seq<T>, x: T)
    requires NoDup(s) && x !in s
    ensures NoDup(s + [x])
  {
  }

  /** Appending a duplicate-free sequence that shares nothing keeps duplicate-freedom. */
  lemma NoDupAppend<T>(a: seq<T>, b: seq<T>)
    requires NoDup(a) && NoDup(b)
    requires forall x :: x in b ==> x !in a
    ensures NoDup(a + b)
    ensures Elements(a + b) == Elements(a) + Elements(b)
  {
    forall i, j | 0 <= i < j < |a + b|
      ensures (a + b)[i] != (a + b)[j]
    {
      if i < |a| && j >= |a| {
        assert (a + b)[j] in b;
      }
    }
  }

  /** Index of the first occurrence of `x` in `s`, or `|s|` when `x` does not occur. */
  function IndexOf<T(==)>(s: seq<T>, x: T): (r: nat)
    ensures r <= |s|
    ensures r < |s| <==> x in s
    ensures r < |s| ==> s[r] == x
    ensures forall k :: 0 <= k < r ==> s[k] != x
  {
    if s == [] then 0
    else if s[0] == x then 0
    else 1 + IndexOf(s[1..], x)
  }

  /** Appending never moves the first occurrence of an element already present. */
  lemma IndexOfAppend<T>(s: seq<T>, y: T, x: T)
    requires x in s
    ensures IndexOf(s + [y], x) == IndexOf(s, x)
  {
    var r, r' := IndexOf(s + [y], x), IndexOf(s, x);
    assert (s + [y])[r'] == x;
    if r < r' {
      assert s[r] == (s + [y])[r];
    }
  }

  /** Keep the first occurrence of each element, in order. */
  function Dedup<T(==)>(s: seq<T>): seq<T>
    decreases |s|
  {
    if s == [] then []
    else
      var d := Dedup(s[..|s| - 1]);
      if s[|s| - 1] in d then d else d + [s[|s| - 1]]
  }

  lemma {:induction false} DedupSameElements<T>(s: seq<T>)
    ensures forall x :: x in Dedup(s) ==> x in s
    ensures forall x :: x in s ==> x in Dedup(s)
    decreases |s|
  {
    if s != [] {
      DedupSameElements(s[..|s| - 1]);
      assert s == s[..|s| - 1] + [s[|s| - 1]];
    }
  }

  lemma {:induction false} DedupNoDup<T>(s: seq<T>)
    ensures NoDup(Dedup(s))
    decreases |s|
  {
    if s != [] {
      DedupNoDup(s[..|s| - 1]);
    }
  }

  /** Deduplicating a duplicate-free sequence changes nothing. */
  lemma {:induction false} DedupOfNoDup<T>(s: seq<T>)
    requires NoDup(s)
    ensures Dedup(s) == s
    decreases |s|
  {
    if s != [] {
      var p := s[..|s| - 1];
      DedupOfNoDup(p);
      DedupSameElements(p);
      assert s[|s| - 1] !in p;
      assert s == p + [s[|s| - 1]];
    }
  }

  /** One more element is kept exactly when it is new. */
  lemma DedupSnoc<T>(s: seq<T>, x: T)
    ensures Dedup(s + [x]) == if x in Dedup(s) then Dedup(s) else Dedup(s) + [x]
  {
    assert (s + [x])[..|s|] == s;
  }

  lemma DedupIdempotent<T>(s: seq<T>)
    ensures Dedup(Dedup(s)) == Dedup(s)
  {
    DedupNoDup(s);
    DedupOfNoDup(Dedup(s));
  }

  /** The survivors appear in the order of their first occurrences in the input. */
  lemma {:induction false} DedupFirstOccurrenceOrder<T>(s: seq<T>)
    ensures forall i, j :: 0 <= i < j < |Dedup(s)| ==> IndexOf(s, Dedup(s)[i]) < IndexOf(s, Dedup(s)[j])
    decreases |s|
  {
    if s != [] {
      var p, y := s[..|s| - 1], s[|s| - 1];
      var d := Dedup(p);
      DedupFirstOccurrenceOrder(p);
      DedupSameElements(p);
      assert s == p + [y];
      forall x | x in d
        ensures IndexOf(s, x) == IndexOf(p, x) < |p|
      {
        IndexOfAppend(p, y, x);
      }
      if y !in d {
        assert IndexOf(s, y) == |p|;
        assert Dedup(s) == d + [y];
        forall i, j | 0 <= i < j < |Dedup(s)|
          ensures IndexOf(s, Dedup(s)[i]) < IndexOf(s, Dedup(s)[j])
        {
          assert Dedup(s)[i] == d[i];
          if j < |d| {
            assert Dedup(s)[j] == d[j];
          }
        }
      }
    }
  }

  /** The elements of `s` not in `excluded`, in order. */
  function Without<T(==)>(s: seq<T>, excluded: set<T>): seq<T>
    decreases |s|
  {
    if s == [] then []
    else Without(s[..|s| - 1], excluded) + (if s[|s| - 1] in excluded then [] else [s[|s| - 1]])
  }

  /** One more element is kept exactly when it is not excluded. */
  lemma WithoutSnoc<T>(s: seq<T>, x: T, excluded: set<T>)
    ensures Without(s + [x], excluded) == Without(s, excluded) + (if x in excluded then [] else [x])
  {
    assert (s + [x])[..|s|] == s;
  }

  lemma {:induction false} WithoutElements<T>(s: seq<T>, excluded: set<T>)
    ensures forall x :: x in Without(s, excluded) ==> x in s && x !in excluded
    ensures forall x :: x in s && x !in excluded ==> x in Without(s, excluded)
    decreases |s|
  {
    if s != [] {
      WithoutElements(s[..|s| - 1], excluded);
      assert s == s[..|s| - 1] + [s[|s| - 1]];
    }
  }
}
