/** Facts about sequences used as the insertion order of a JavaScript `Map`. */
module Seqs {

  /** No element occurs twice: the keys of a map, in insertion order. */
  predicate Distinct<T(==)>(s: seq<T>)
  {
    s == [] || (s[|s| - 1] !in s[..|s| - 1] && Distinct(s[..|s| - 1]))
  }

  /** `Distinct` read pairwise: no two positions hold the same element. */
  lemma {:induction false} DistinctPairwise<T>(s: seq<T>)
    ensures Distinct(s) <==> forall i, j :: 0 <= i < j < |s| ==> s[i] != s[j]
  {
    if s != [] {
      var init, last := s[..|s| - 1], s[|s| - 1];
      assert s == init + [last];
      DistinctPairwise(init);
      if forall i, j :: 0 <= i < j < |s| ==> s[i] != s[j] {
        forall i, j | 0 <= i < j < |init| ensures init[i] != init[j] {
          assert s[i] == init[i] && s[j] == init[j];
        }
        forall k | 0 <= k < |init| ensures init[k] != last {
          assert s[k] == init[k];
        }
      }
    }
  }

  /** Appending an element not yet present keeps a sequence duplicate-free. */
  lemma DistinctSnoc<T>(s: seq<T>, x: T)
    requires Distinct(s) && x !in s
    ensures Distinct(s + [x])
  {
    assert (s + [x])[..|s|] == s;
  }

  /** `a` occurs at an earlier position of `s` than `b`. */
  ghost predicate Before<T>(s: seq<T>, a: T, b: T)
  {
    exists p, q :: 0 <= p < q < |s| && s[p] == a && s[q] == b
  }

  /** `s` with every occurrence of `x` dropped and the order of the rest kept (a `Map.delete` on the key order). */
  function Without<T(==,!new)>(s: seq<T>, x: T): (t: seq<T>)
    ensures forall y :: y in t <==> y in s && y != x
    ensures x !in s ==> t == s
    ensures Distinct(s) ==> Distinct(t)
    ensures Distinct(s) && x in s ==> |t| == |s| - 1
    ensures |t| <= |s|
  {
    if s == [] then []
    else
      var init, last := s[..|s| - 1], s[|s| - 1];
      assert s == init + [last];
      var t := Without(init, x);
      if last == x then t
      else
        assert Distinct(s) ==> Distinct(t + [last]) by {
          if Distinct(s) { DistinctSnoc(t, last); }
        }
        t + [last]
  }

  /** Dropping an element that is not the last commutes with appending. */
  lemma WithoutSnoc<T(!new)>(s: seq<T>, y: T, x: T)
    ensures Without(s + [y], x) == if y == x then Without(s, x) else Without(s, x) + [y]
  {
    assert (s + [y])[..|s|] == s;
  }

  /** `Without` keeps the remaining elements in their original relative order. */
  lemma {:induction false} WithoutOrdered<T(!new)>(s: seq<T>, x: T)
    ensures forall i, j :: 0 <= i < j < |Without(s, x)| ==> Before(s, Without(s, x)[i], Without(s, x)[j])
  {
    var t := Without(s, x);
    if s != [] {
      var init, last := s[..|s| - 1], s[|s| - 1];
      assert s == init + [last];
      var t0 := Without(init, x);
      WithoutOrdered(init, x);
      WithoutSnoc(init, last, x);
      forall i, j | 0 <= i < j < |t| ensures Before(s, t[i], t[j]) {
        if j < |t0| {
          assert Before(init, t0[i], t0[j]);
          var p, q :| 0 <= p < q < |init| && init[p] == t0[i] && init[q] == t0[j];
          assert s[p] == t[i] && s[q] == t[j];
        } else {
          assert t0[i] in init;
          var p :| 0 <= p < |init| && init[p] == t0[i];
          assert s[p] == t[i] && s[|s| - 1] == t[j];
        }
      }
    }
  }

  /** A sequence without duplicates has as many elements as the set of its elements. */
  lemma {:induction false} DistinctCard<T>(s: seq<T>)
    requires Distinct(s)
    ensures |set x | x in s| == |s|
  {
    if s != [] {
      var init, last := s[..|s| - 1], s[|s| - 1];
      assert s == init + [last];
      DistinctCard(init);
      assert (set x | x in s) == (set x | x in init) + {last};
      assert last !in (set x | x in init);
    }
  }
}
