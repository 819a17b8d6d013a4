/**
 Sequence vocabulary shared by the reconciler model, and models of the two
 JavaScript built-ins the validation pass leans on: the insertion-ordered
 `[...new Set(xs)]` round trip (Dedup) and `Array.prototype.sort` with the
 numeric comparator `(a, b) => a - b` (Sort).
 */
module Collections {

  /** No value occurs twice. */
  predicate NoDup<T(==)>(s: seq<T>)
  {
    forall i, j :: 0 <= i < j < |s| ==> s[i] != s[j]
  }

  /** Non-decreasing order. */
  predicate Sorted(s: seq<int>)
  {
    forall i, j :: 0 <= i < j < |s| ==> s[i] <= s[j]
  }

  predicate StrictlyIncreasing(s: seq<int>)
  {
    forall i, j :: 0 <= i < j < |s| ==> s[i] < s[j]
  }

  /** The set of values a sequence holds. */
  function Elements<T(==)>(s: seq<T>): set<T>
  {
    set x | x in s
  }

  /** A sequence without repeats has as many elements as it has distinct values. */
  lemma {:induction false} DistinctCard<T>(s: seq<T>)
    requires NoDup(s)
    ensures |Elements(s)| == |s|
  {
    if s != [] {
      var t := s[1..];
      assert NoDup(t) by {
        forall i, j | 0 <= i < j < |t| ensures t[i] != t[j] {
          assert t[i] == s[i + 1] && t[j] == s[j + 1];
        }
      }
      DistinctCard(t);
      assert Elements(s) == {s[0]} + Elements(t);
      forall k | 0 <= k < |t| ensures t[k] != s[0] {
        assert t[k] == s[k + 1];
      }
    }
  }

  /** A strictly increasing sequence has no repeats. */
  lemma StrictlyIncreasingNoDup(s: seq<int>)
    requires StrictlyIncreasing(s)
    ensures NoDup(s)
  {
  }

  /**
   `[...new Set(s)]`: the distinct values of `s`, each once, in the order of
   their first occurrence.
   */
  function Dedup(s: seq<int>): (r: seq<int>)
    ensures NoDup(r)
    ensures forall x :: x in r <==> x in s
    ensures |r| <= |s|
  {
    if s == [] then []
    else
      var init, last := s[..|s| - 1], s[|s| - 1];
      assert s == init + [last];
      var d := Dedup(init);
      if last in d then d else d + [last]
  }

  /** Inserts `x` into a sorted sequence before the first larger element. */
  function Insert(x: int, s: seq<int>): (r: seq<int>)
    requires Sorted(s)
    ensures Sorted(r)
    ensures multiset(r) == multiset(s) + multiset{x}
  {
    if s == [] then [x]
    else if x <= s[0] then [x] + s
    else
      var rest := Insert(x, s[1..]);
      assert s == [s[0]] + s[1..];
      InsertAfterHead(x, s, rest);
      [s[0]] + rest
  }

  /** Every value of `rest` is at least the head of `s`, on which `x` is placed later. */
  lemma InsertAfterHead(x: int, s: seq<int>, rest: seq<int>)
    requires Sorted(s) && s != [] && s[0] < x
    requires Sorted(rest) && multiset(rest) == multiset(s[1..]) + multiset{x}
    ensures Sorted([s[0]] + rest)
  {
    forall y | y in rest ensures s[0] <= y {
      assert y in multiset(rest);
      if y != x {
        assert y in multiset(s[1..]);
        assert y in s[1..];
      }
    }
    var r := [s[0]] + rest;
    forall i, j | 0 <= i < j < |r| ensures r[i] <= r[j] {
      if i > 0 {
        assert r[i] == rest[i - 1] && r[j] == rest[j - 1];
      } else {
        assert r[j] == rest[j - 1] && rest[j - 1] in rest;
      }
    }
  }

  /**
   The ascending numeric sort of the validation pass. Any sort that returns an
   ordered permutation returns this sequence, so a stable insertion sort
   stands in for the engine's algorithm.
   */
  function Sort(s: seq<int>): (r: seq<int>)
    ensures Sorted(r)
    ensures multiset(r) == multiset(s)
  {
    if s == [] then []
    else
      assert s == [s[0]] + s[1..];
      Insert(s[0], Sort(s[1..]))
  }

  /** A value occurs at most once in a sequence without repeats. */
  lemma {:induction false} NoDupMultiplicity<T>(s: seq<T>, x: T)
    requires NoDup(s)
    ensures multiset(s)[x] <= 1
  {
    if s != [] {
      var t := s[1..];
      assert s == [s[0]] + t;
      assert NoDup(t) by {
        forall i, j | 0 <= i < j < |t| ensures t[i] != t[j] {
          assert t[i] == s[i + 1] && t[j] == s[j + 1];
        }
      }
      NoDupMultiplicity(t, x);
      if s[0] == x {
        forall k | 0 <= k < |t| ensures t[k] != x {
          assert t[k] == s[k + 1];
        }
        assert x !in multiset(t);
      }
    }
  }

  /** Two equal entries at different positions give a multiplicity of two or more. */
  lemma TwiceMultiplicity<T>(s: seq<T>, i: nat, j: nat)
    requires i < j < |s| && s[i] == s[j]
    ensures multiset(s)[s[i]] >= 2
  {
    assert s == s[..i] + [s[i]] + s[i + 1..j] + [s[j]] + s[j + 1..];
  }

  /**
   Sorting a sequence without repeats yields a strictly increasing sequence
   with the same values: `[...new Set(xs)].sort(...)` is the ascending list
   of the distinct values of `xs`.
   */
  lemma {:induction false} SortedDistinct(s: seq<int>)
    requires NoDup(s)
    ensures StrictlyIncreasing(Sort(s))
    ensures Elements(Sort(s)) == Elements(s)
    ensures |Sort(s)| == |s|
  {
    var r := Sort(s);
    assert |r| == |multiset(r)| == |multiset(s)| == |s|;
    forall i, j | 0 <= i < j < |r| ensures r[i] < r[j] {
      if r[i] == r[j] {
        TwiceMultiplicity(r, i, j);
        NoDupMultiplicity(s, r[i]);
        assert false;
      }
    }
    forall x ensures x in r <==> x in s {
      assert x in r <==> x in multiset(r);
      assert x in s <==> x in multiset(s);
    }
  }
}
