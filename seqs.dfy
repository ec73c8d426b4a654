/** `Array.prototype.filter` and the facts about it that the pipeline relies on. */
module Seqs {
  /** The elements of `s` that `keep` accepts, in their order in `s`. */
  function Filter<T(!new)>(s: seq<T>, keep: T -> bool): (r: seq<T>)
    ensures |r| <= |s|
    ensures forall x :: x in r <==> x in s && keep(x)
  {
    if s == [] then []
    else
      var init, last := s[..|s| - 1], s[|s| - 1];
      assert s == init + [last];
      Filter(init, keep) + (if keep(last) then [last] else [])
  }

  /** Every element is kept as often as it occurs in `s`, or dropped every time. */
  lemma {:induction false} FilterMultiplicity<T(!new)>(s: seq<T>, keep: T -> bool, x: T)
    ensures multiset(Filter(s, keep))[x] == if keep(x) then multiset(s)[x] else 0
  {
    if s != [] {
      var init, last := s[..|s| - 1], s[|s| - 1];
      assert s == init + [last];
      FilterMultiplicity(init, keep, x);
    }
  }

  /** The positions of `s` whose element `keep` accepts, in increasing order. */
  function KeptPositions<T>(s: seq<T>, keep: T -> bool): (idx: seq<nat>)
    ensures forall i :: 0 <= i < |idx| ==> idx[i] < |s| && keep(s[idx[i]])
    ensures forall i, j :: 0 <= i < j < |idx| ==> idx[i] < idx[j]
    ensures forall p :: 0 <= p < |s| && keep(s[p]) ==> p in idx
  {
    if s == [] then []
    else
      var init := s[..|s| - 1];
      assert forall p :: 0 <= p < |init| ==> init[p] == s[p];
      KeptPositions(init, keep) + (if keep(s[|s| - 1]) then [|s| - 1] else [])
  }

  /**
    The result of `filter` is the subsequence of `s` at exactly the accepted
    positions: its i-th element is the element at the i-th accepted position.
  */
  lemma {:induction false} FilterOrdered<T(!new)>(s: seq<T>, keep: T -> bool)
    ensures |Filter(s, keep)| == |KeptPositions(s, keep)|
    ensures forall i :: 0 <= i < |Filter(s, keep)| ==> Filter(s, keep)[i] == s[KeptPositions(s, keep)[i]]
  {
    if s != [] {
      var init, last := s[..|s| - 1], s[|s| - 1];
      FilterOrdered(init, keep);
      var r0, idx0 := Filter(init, keep), KeptPositions(init, keep);
      var r, idx := Filter(s, keep), KeptPositions(s, keep);
      assert r == r0 + (if keep(last) then [last] else []);
      assert idx == idx0 + (if keep(last) then [|s| - 1] else []);
      forall i | 0 <= i < |r| ensures r[i] == s[idx[i]] {
        if i < |r0| {
          assert r[i] == r0[i] == init[idx0[i]] && idx[i] == idx0[i];
        }
      }
    }
  }

  /** Filtering a list without repeats gives a list without repeats. */
  lemma {:induction false} FilterDistinct<T(!new)>(s: seq<T>, keep: T -> bool)
    requires forall a, b :: 0 <= a < b < |s| ==> s[a] != s[b]
    ensures forall i, j :: 0 <= i < j < |Filter(s, keep)| ==> Filter(s, keep)[i] != Filter(s, keep)[j]
  {
    if s != [] {
      var init, last := s[..|s| - 1], s[|s| - 1];
      assert s == init + [last];
      FilterDistinct(init, keep);
      assert last !in init;
      assert last !in Filter(init, keep);
    }
  }
}
