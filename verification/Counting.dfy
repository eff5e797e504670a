/** Cardinalities behind the drop, gap and missing counters. */
module Counting {

  predicate Distinct(s: seq<nat>) {
    forall i, j :: 0 <= i < j < |s| ==> s[i] != s[j]
  }

  predicate Increasing(s: seq<nat>) {
    forall i, j :: 0 <= i < j < |s| ==> s[i] < s[j]
  }

  predicate Within(s: seq<nat>, lo: nat, hi: nat) {
    forall i :: 0 <= i < |s| ==> lo <= s[i] <= hi
  }

  predicate Between(i: nat, lo: nat, hi: nat) {
    lo <= i <= hi
  }

  function Interval(lo: nat, hi: nat): set<nat> {
    set i: nat | i <= hi && Between(i, lo, hi)
  }

  function Elements(s: seq<nat>): set<nat> {
    set x | x in s
  }

  // The numbers from lo to hi that s does not have.
  function Absent(s: seq<nat>, lo: nat, hi: nat): set<nat> {
    Interval(lo, hi) - Elements(s)
  }

  lemma {:induction false} IntervalSize(lo: nat, hi: nat)
    requires lo <= hi
    ensures |Interval(lo, hi)| == hi - lo + 1
    decreases hi - lo
  {
    if lo == hi {
      assert Interval(lo, hi) == {lo};
    } else {
      IntervalSize(lo, hi - 1);
      assert Interval(lo, hi) == Interval(lo, hi - 1) + {hi};
    }
  }

  lemma {:induction false} ElementsSize(s: seq<nat>)
    requires Distinct(s)
    ensures |Elements(s)| == |s|
  {
    if s == [] {
    } else {
      var init, last := s[..|s| - 1], s[|s| - 1];
      ElementsSize(init);
      assert s == init + [last];
      assert Elements(s) == Elements(init) + {last};
    }
  }

  // The pigeonhole principle, with the exact number of empty holes.
  lemma AbsentCount(s: seq<nat>, lo: nat, hi: nat)
    requires lo <= hi && Distinct(s) && Within(s, lo, hi)
    ensures |s| <= hi - lo + 1
    ensures |Absent(s, lo, hi)| == hi - lo + 1 - |s|
  {
    IntervalSize(lo, hi);
    ElementsSize(s);
    assert Elements(s) <= Interval(lo, hi);
    assert Interval(lo, hi) == Absent(s, lo, hi) + Elements(s);
  }
}
