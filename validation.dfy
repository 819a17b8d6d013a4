/**
 The validation pass of `updateSeatingData`: over the concatenation of every
 ticket list of the plan it reports each duplicated ticket once and the gaps
 in the ticket numbering between the smallest and the largest ticket.
 */
module Validation {
  import opened Collections
  import opened TicketRange
  import opened Seating

  /** Gap lists this long or longer are reported by their count alone. */
  const GapListLimit: nat := 20

  /** What the gap warning says: nothing, the gaps one by one, or only how many there are. */
  datatype GapReport = NoGaps | Listed(gaps: seq<int>) | CountOnly(count: nat)

  /** `allTickets`: every plan list pushed, in plan order, onto one array. */
  method CollectTickets(plan: Plan) returns (all: seq<int>)
    ensures all == Flatten(plan)
  {
    all := [];
    var i := 0;
    assert plan[i..] == plan;
    while i < |plan|
      invariant 0 <= i <= |plan|
      invariant all + Flatten(plan[i..]) == Flatten(plan)
    {
      assert plan[i..][1..] == plan[i + 1..];
      assert all + plan[i].tickets + Flatten(plan[i + 1..]) == all + Flatten(plan[i..]);
      all := all + plan[i].tickets;
      i := i + 1;
    }
  }

  // ---------------------------------------------------------------------
  // Duplicates
  // ---------------------------------------------------------------------

  /** `s.indexOf(x)`: the first position holding `x`, or -1. */
  function IndexOf(s: seq<int>, x: int): (r: int)
    ensures x in s ==> 0 <= r < |s| && s[r] == x && forall k :: 0 <= k < r ==> s[k] != x
    ensures x !in s ==> r == -1
  {
    if s == [] then -1
    else if s[0] == x then 0
    else
      var r := IndexOf(s[1..], x);
      if r == -1 then -1 else r + 1
  }

  /**
   The duplicate filter, from position `from` on: it keeps each element whose
   `indexOf` is not its own position, that is, every occurrence of a value
   other than its first.
   */
  function LaterOccurrences(s: seq<int>, from: nat): (r: seq<int>)
    requires from <= |s|
    ensures forall x :: x in r <==> exists j :: from <= j < |s| && s[j] == x && IndexOf(s, x) != j
    decreases |s| - from
  {
    if from == |s| then []
    else
      (if IndexOf(s, s[from]) != from then [s[from]] else []) + LaterOccurrences(s, from + 1)
  }

  /** `x` occurs at two different positions of `s`. */
  ghost predicate Repeated(s: seq<int>, x: int)
  {
    exists i, j :: 0 <= i < j < |s| && s[i] == x && s[j] == x
  }

  /** The de-duplicated duplicate list: each value that occurs more than once, listed once. */
  function DuplicateReport(all: seq<int>): (r: seq<int>)
    ensures NoDup(r)
    ensures forall x :: x in r <==> Repeated(all, x)
  {
    var later := LaterOccurrences(all, 0);
    assert forall x :: x in later <==> Repeated(all, x) by {
      forall x ensures x in later <==> Repeated(all, x) {
        if x in later {
          var j :| 0 <= j < |all| && all[j] == x && IndexOf(all, x) != j;
          var i := IndexOf(all, x);
          assert 0 <= i < j;
        }
        if Repeated(all, x) {
          var i, j :| 0 <= i < j < |all| && all[i] == x && all[j] == x;
          assert IndexOf(all, x) <= i;
        }
      }
    }
    Dedup(later)
  }

  // ---------------------------------------------------------------------
  // Gaps
  // ---------------------------------------------------------------------

  /** The smallest ticket. */
  function Min(s: seq<int>): (m: int)
    requires s != []
    ensures m in s && forall x :: x in s ==> m <= x
  {
    if |s| == 1 then s[0]
    else
      var rest := Min(s[1..]);
      assert s == [s[0]] + s[1..];
      if s[0] <= rest then s[0] else rest
  }

  /** The largest ticket. */
  function Max(s: seq<int>): (m: int)
    requires s != []
    ensures m in s && forall x :: x in s ==> x <= m
  {
    if |s| == 1 then s[0]
    else
      var rest := Max(s[1..]);
      assert s == [s[0]] + s[1..];
      if s[0] >= rest then s[0] else rest
  }

  /** The values of `s` that `present` does not hold, in the order of `s`. */
  function Absent(s: seq<int>, present: seq<int>): seq<int>
  {
    if s == [] then []
    else
      var last := s[|s| - 1];
      Absent(s[..|s| - 1], present) + (if last in present then [] else [last])
  }

  /**
   The gaps in a ticket numbering: the integers from the smallest to the
   largest ticket that no ticket carries, in increasing order; none at all
   when there are no tickets.
   */
  function Gaps(all: seq<int>): seq<int>
  {
    if all == [] then [] else Absent(Range(Min(all), Max(all)), all)
  }

  /** `Absent` keeps exactly the values of `s` missing from `present`, in the same order. */
  lemma {:induction false} AbsentShape(s: seq<int>, present: seq<int>)
    ensures forall x :: x in Absent(s, present) <==> x in s && x !in present
    ensures StrictlyIncreasing(s) ==> StrictlyIncreasing(Absent(s, present))
  {
    if s != [] {
      var init, last := s[..|s| - 1], s[|s| - 1];
      assert s == init + [last];
      AbsentShape(init, present);
      var a := Absent(init, present);
      if StrictlyIncreasing(s) {
        assert StrictlyIncreasing(init);
        forall k | 0 <= k < |a| ensures a[k] < last {
          assert a[k] in a;
          var m :| 0 <= m < |init| && init[m] == a[k];
          assert s[m] == init[m];
        }
      }
    }
  }

  /** `Absent` depends only on which values `present` holds. */
  lemma {:induction false} AbsentSameValues(s: seq<int>, p: seq<int>, q: seq<int>)
    requires forall x :: x in p <==> x in q
    ensures Absent(s, p) == Absent(s, q)
  {
    if s != [] {
      AbsentSameValues(s[..|s| - 1], p, q);
    }
  }

  /**
   The gaps are exactly the integers strictly between the smallest and the
   largest ticket that no ticket carries, in strictly increasing order, and
   there are as many of them as the range has integers beyond the distinct
   tickets.
   */
  lemma {:induction false} GapsShape(all: seq<int>)
    requires all != []
    ensures forall x :: x in Gaps(all) <==> Min(all) <= x <= Max(all) && x !in all
    ensures forall x :: x in Gaps(all) ==> Min(all) < x < Max(all)
    ensures StrictlyIncreasing(Gaps(all))
    ensures |Gaps(all)| == (Max(all) - Min(all) + 1) - |Elements(all)|
  {
    AbsentFromRange(all, Min(all), Max(all));
  }

  /** GapsShape for the range between two tickets that bound all the others. */
  lemma {:induction false} AbsentFromRange(all: seq<int>, lo: int, hi: int)
    requires lo in all && hi in all
    requires forall x :: x in all ==> lo <= x <= hi
    ensures var g := Absent(Range(lo, hi), all);
      && (forall x :: x in g <==> lo <= x <= hi && x !in all)
      && (forall x :: x in g ==> lo < x < hi)
      && StrictlyIncreasing(g)
      && |g| == (hi - lo + 1) - |Elements(all)|
  {
    var r := Range(lo, hi);
    var g := Absent(r, all);
    RangeShape(lo, hi);
    AbsentShape(r, all);
    assert forall x :: x in g <==> lo <= x <= hi && x !in all;
    forall x | x in g ensures lo < x < hi {
      assert x != lo && x != hi;
    }
    GapsCount(all, r, g);
    assert |r| == hi - lo + 1;
  }

  /** The counting half of GapsShape, on the range and the gaps it was given. */
  lemma GapsCount(all: seq<int>, r: seq<int>, g: seq<int>)
    requires StrictlyIncreasing(g)
    requires |Elements(r)| == |r|
    requires forall x :: x in g <==> x in r && x !in all
    requires forall x :: x in all ==> x in r
    ensures |g| == |r| - |Elements(all)|
  {
    StrictlyIncreasingNoDup(g);
    DistinctCard(g);
    var e, eg, er := Elements(all), Elements(g), Elements(r);
    assert er == eg + e by {
      forall x ensures x in er <==> x in eg || x in e {
        assert x in er <==> x in r;
        assert x in eg <==> x in g;
        assert x in e <==> x in all;
      }
    }
    assert eg !! e by {
      forall x | x in eg ensures x !in e {
        assert x in g;
      }
    }
    assert |er| == |eg| + |e|;
  }

  /**
   The counting loop from `lo` up to and including `hi` that appends every
   integer the sorted tickets do not include.
   */
  method MissingInRange(sorted: seq<int>, lo: int, hi: int) returns (missing: seq<int>)
    ensures missing == Absent(Range(lo, hi), sorted)
  {
    missing := [];
    var i := lo;
    while i <= hi
      invariant lo <= i && (i <= hi + 1 || i == lo)
      invariant missing == Absent(Range(lo, i - 1), sorted)
      decreases hi - i
    {
      assert Range(lo, i) == Range(lo, i - 1) + [i];
      if i !in sorted {
        missing := missing + [i];
      }
      i := i + 1;
    }
    assert i - 1 < lo ==> Range(lo, hi) == [] == Range(lo, i - 1);
  }

  /** The gap warning for a list of gaps: silent, listed below the limit, counted from it on. */
  function Classify(missing: seq<int>): GapReport
  {
    if |missing| == 0 then NoGaps
    else if |missing| < GapListLimit then Listed(missing)
    else CountOnly(|missing|)
  }

  /**
   What the gap warning means for the tickets: no warning exactly when every
   integer between the smallest and the largest ticket is some ticket; a
   listed warning names all the gaps, fewer than twenty; a counted one gives
   their number, twenty or more.
   */
  lemma {:induction false} GapReportMeaning(all: seq<int>)
    ensures Classify(Gaps(all)) == NoGaps <==>
      (all == [] || forall x :: Min(all) <= x <= Max(all) ==> x in all)
    ensures Classify(Gaps(all)).Listed? ==>
      all != [] && Classify(Gaps(all)).gaps == Gaps(all)
      && 0 < |Gaps(all)| < GapListLimit
      && forall x :: x in Classify(Gaps(all)).gaps <==> Min(all) <= x <= Max(all) && x !in all
    ensures Classify(Gaps(all)).CountOnly? ==>
      all != [] && GapListLimit <= Classify(Gaps(all)).count
      && Classify(Gaps(all)).count == (Max(all) - Min(all) + 1) - |Elements(all)|
  {
    if all != [] {
      GapsShape(all);
      if Gaps(all) != [] {
        assert Gaps(all)[0] in Gaps(all);
      }
    }
  }

  // ---------------------------------------------------------------------
  // The whole validation pass
  // ---------------------------------------------------------------------

  /**
   The duplicate and gap diagnostics over the plan's ticket lists (all of
   them, ids unknown to the document included). They read only the plan.
   */
  method Validate(plan: Plan) returns (duplicates: seq<int>, gaps: GapReport)
    ensures NoDup(duplicates)
    ensures forall x :: x in duplicates <==> Repeated(Flatten(plan), x)
    ensures gaps == Classify(Gaps(Flatten(plan)))
  {
    var all := CollectTickets(plan);
    duplicates := DuplicateReport(all);
    var distinct := Dedup(all);
    var sorted := Sort(distinct);
    SortedDistinct(distinct);
    gaps := NoGaps;
    if |sorted| > 0 {
      var lo, hi := sorted[0], sorted[|sorted| - 1];
      SortedEnds(all, sorted);
      var missing := MissingInRange(sorted, lo, hi);
      AbsentSameValues(Range(lo, hi), sorted, all);
      gaps := Classify(missing);
    } else {
      assert distinct == [];
    }
  }

  /** The ends of the sorted distinct tickets are the smallest and the largest ticket. */
  lemma SortedEnds(all: seq<int>, sorted: seq<int>)
    requires Sorted(sorted) && sorted != []
    requires Elements(sorted) == Elements(all)
    ensures all != []
    ensures sorted[0] == Min(all) && sorted[|sorted| - 1] == Max(all)
    ensures forall x :: x in sorted <==> x in all
  {
    forall x ensures x in sorted <==> x in all {
      assert x in sorted <==> x in Elements(sorted);
      assert x in all <==> x in Elements(all);
    }
    assert sorted[0] in all && sorted[|sorted| - 1] in all;
    var lo, hi := Min(all), Max(all);
    assert lo in sorted && hi in sorted;
  }

  // ---------------------------------------------------------------------
  // Worked cases
  // ---------------------------------------------------------------------

  /**
   Tickets 5, 7, 5, 9, 7, 7: the duplicate warning names 5 and 7, each once.
   The tickets arrive through a `requires` rather than as a literal argument,
   which keeps Dafny from unfolding the gap and duplicate functions too far.
   */
  lemma DuplicatesExample(all: seq<int>)
    requires all == [5, 7, 5, 9, 7, 7]
    ensures var r := DuplicateReport(all);
      NoDup(r) && forall x :: x in r <==> x == 5 || x == 7
  {
    var r := DuplicateReport(all);
    assert Repeated(all, 5) by { assert all[0] == all[2] == 5; }
    assert Repeated(all, 7) by { assert all[1] == all[4] == 7; }
    forall x | x != 5 && x != 7 ensures !Repeated(all, x) {
      forall i, j | 0 <= i < j < |all| && all[i] == x ensures all[j] != x {
        assert i == 3;
      }
    }
  }

  /**
   Tickets 1, 2, 4, 5, 8: the gaps are 3, 6 and 7, listed.
   The tickets arrive through a `requires` rather than as a literal argument,
   which keeps Dafny from unfolding the gap and duplicate functions too far.
   */
  lemma GapsExample(all: seq<int>)
    requires all == [1, 2, 4, 5, 8]
    ensures Gaps(all) == [3, 6, 7]
    ensures Classify(Gaps(all)) == Listed([3, 6, 7])
  {
    Bounds(all, 1, 8);
    GapsShape(all);
    DistinctCard(all);
    PinThree(Gaps(all), 3, 6, 7);
  }

  /** The smallest and the largest ticket, when both are known. */
  lemma Bounds(all: seq<int>, lo: int, hi: int)
    requires lo in all && hi in all && forall x :: x in all ==> lo <= x <= hi
    ensures all != [] && Min(all) == lo && Max(all) == hi
  {
  }

  /** A strictly increasing sequence of three values holding `a < b < c` is `[a, b, c]`. */
  lemma PinThree(g: seq<int>, a: int, b: int, c: int)
    requires StrictlyIncreasing(g) && |g| == 3
    requires a < b < c && a in g && b in g && c in g
    ensures g == [a, b, c]
  {
  }

  /**
   Tickets 1 and 27 leave 25 gaps, which are reported by count alone.
   The tickets arrive through a `requires` rather than as a literal argument,
   which keeps Dafny from unfolding the gap and duplicate functions too far.
   */
  lemma GapCountExample(all: seq<int>)
    requires all == [1, 27]
    ensures Classify(Gaps(all)) == CountOnly(25)
  {
    Bounds(all, 1, 27);
    GapsShape(all);
    DistinctCard(all);
  }
}
