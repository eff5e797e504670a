/** In-order subsequences: each element of the longer list used at most once. */
module Subsequences {
  import opened Counting

  predicate SubSeq<T(==)>(a: seq<T>, b: seq<T>) {
    a == [] ||
    (b != [] &&
     ((a[|a| - 1] == b[|b| - 1] && SubSeq(a[..|a| - 1], b[..|b| - 1]))
      || SubSeq(a, b[..|b| - 1])))
  }

  lemma {:induction false} Itself<T>(a: seq<T>)
    ensures SubSeq(a, a)
  {
    if a == [] {
    } else {
      Itself(a[..|a| - 1]);
    }
  }

  lemma SnocBoth<T>(a: seq<T>, b: seq<T>, x: T)
    requires SubSeq(a, b)
    ensures SubSeq(a + [x], b + [x])
  {
    assert (a + [x])[..|a|] == a && (b + [x])[..|b|] == b;
  }

  lemma SnocRight<T>(a: seq<T>, b: seq<T>, x: T)
    requires SubSeq(a, b)
    ensures SubSeq(a, b + [x])
  {
    assert (b + [x])[..|b|] == b;
  }

  lemma {:induction false} DropLast<T>(a: seq<T>, b: seq<T>)
    requires a != [] && SubSeq(a, b)
    ensures SubSeq(a[..|a| - 1], b)
    decreases |b|
  {
    if !(a[|a| - 1] == b[|b| - 1] && SubSeq(a[..|a| - 1], b[..|b| - 1])) {
      DropLast(a, b[..|b| - 1]);
    }
  }

  lemma {:induction false} Transitive<T>(a: seq<T>, b: seq<T>, c: seq<T>)
    requires SubSeq(a, b) && SubSeq(b, c)
    ensures SubSeq(a, c)
    decreases |c|
  {
    if a == [] {
    } else {
      var a', b', c' := a[..|a| - 1], b[..|b| - 1], c[..|c| - 1];
      if b[|b| - 1] == c[|c| - 1] && SubSeq(b', c') {
        if a[|a| - 1] == b[|b| - 1] && SubSeq(a', b') {
          Transitive(a', b', c');
        } else {
          Transitive(a, b', c');
        }
      } else {
        Transitive(a, b, c');
      }
    }
  }

  lemma {:induction false} AppendBoth<T>(a: seq<T>, b: seq<T>, x: seq<T>)
    requires SubSeq(a, b)
    ensures SubSeq(a + x, b + x)
    decreases |x|
  {
    if x == [] {
      assert a + x == a && b + x == b;
    } else {
      var x', l := x[..|x| - 1], x[|x| - 1];
      AppendBoth(a, b, x');
      SnocBoth(a + x', b + x', l);
      assert (a + x') + [l] == a + x && (b + x') + [l] == b + x;
    }
  }

  lemma {:induction false} AppendRight<T>(a: seq<T>, b: seq<T>, x: seq<T>)
    requires SubSeq(a, b)
    ensures SubSeq(a, b + x)
    decreases |x|
  {
    if x == [] {
      assert b + x == b;
    } else {
      var x', l := x[..|x| - 1], x[|x| - 1];
      AppendRight(a, b, x');
      SnocRight(a, b + x', l);
      assert (b + x') + [l] == b + x;
    }
  }

  // Positions, strictly increasing, at which b has the elements of a.
  ghost predicate Placed<T(!new)>(a: seq<T>, b: seq<T>, at: seq<nat>) {
    |at| == |a| && Increasing(at) && forall k :: 0 <= k < |a| ==> at[k] < |b| && b[at[k]] == a[k]
  }

  lemma {:induction false} Place<T(!new)>(a: seq<T>, b: seq<T>) returns (at: seq<nat>)
    requires SubSeq(a, b)
    ensures Placed(a, b, at)
    decreases |b|
  {
    if a == [] {
      at := [];
    } else if a[|a| - 1] == b[|b| - 1] && SubSeq(a[..|a| - 1], b[..|b| - 1]) {
      at := Place(a[..|a| - 1], b[..|b| - 1]);
      at := at + [|b| - 1];
    } else {
      at := Place(a, b[..|b| - 1]);
    }
  }

  lemma {:induction false} PlacedIsSubSeq<T(!new)>(a: seq<T>, b: seq<T>, at: seq<nat>)
    requires Placed(a, b, at)
    ensures SubSeq(a, b)
    decreases |b|
  {
    if a == [] {
    } else {
      assert at[|a| - 1] < |b|;
      var a', b' := a[..|a| - 1], b[..|b| - 1];
      if at[|a| - 1] == |b| - 1 {
        PlacedIsSubSeq(a', b', at[..|a| - 1]);
      } else {
        assert forall k :: 0 <= k < |a| ==> at[k] <= at[|a| - 1] < |b'|;
        PlacedIsSubSeq(a, b', at);
      }
    }
  }

  // The recursive definition is the one with positions.
  lemma SubSeqMeaning<T(!new)>(a: seq<T>, b: seq<T>)
    ensures SubSeq(a, b) <==> exists at: seq<nat> :: Placed(a, b, at)
  {
    if SubSeq(a, b) {
      var at := Place(a, b);
    }
    forall at: seq<nat> | Placed(a, b, at) ensures SubSeq(a, b) {
      PlacedIsSubSeq(a, b, at);
    }
  }
}
