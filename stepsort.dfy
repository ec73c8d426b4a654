/**
  `list.sort((a, b) => a.step - b.step)` (vrt/misw-4103-pixelmatch/index.js:141-142).
  `Array.prototype.sort` is stable, so with this comparator the result is the
  unique rearrangement that is ordered by step and keeps equal steps in their
  original order. StableSort gives that result by insertion; SortUnique shows
  that any stable sort by step returns the same sequence.
*/
module StepSort {
  import opened Grouping

  predicate SortedByStep(s: seq<Shot>)
  {
    forall i, j :: 0 <= i < j < |s| ==> s[i].step <= s[j].step
  }

  /** The entries of `s` whose step is `v`, in their order in `s`. */
  function WithStep(s: seq<Shot>, v: nat): seq<Shot>
  {
    if s == [] then []
    else WithStep(s[..|s| - 1], v) + (if s[|s| - 1].step == v then [s[|s| - 1]] else [])
  }

  /** The subsequence of step `v` holds entries of `s` with step `v` only. */
  lemma {:induction false} WithStepSound(s: seq<Shot>, v: nat, e: Shot)
    requires e in WithStep(s, v)
    ensures e in s && e.step == v
  {
    if s != [] {
      var init := s[..|s| - 1];
      if e in WithStep(init, v) {
        WithStepSound(init, v, e);
      }
    }
  }

  /** `x` placed after every entry of `t` whose step is not greater than its own. */
  function Insert(t: seq<Shot>, x: Shot): (r: seq<Shot>)
    ensures |r| == |t| + 1
    ensures multiset(r) == multiset(t) + multiset{x}
    ensures r[|r| - 1] == x || (t != [] && r[|r| - 1] == t[|t| - 1])
  {
    if t == [] || t[|t| - 1].step <= x.step then t + [x]
    else
      var init := t[..|t| - 1];
      assert t == init + [t[|t| - 1]];
      Insert(init, x) + [t[|t| - 1]]
  }

  /** The stable sort of `s` by step. */
  function StableSort(s: seq<Shot>): (r: seq<Shot>)
    ensures multiset(r) == multiset(s)
  {
    if s == [] then []
    else
      assert s == s[..|s| - 1] + [s[|s| - 1]];
      Insert(StableSort(s[..|s| - 1]), s[|s| - 1])
  }

  lemma {:induction false} InsertSorted(t: seq<Shot>, x: Shot)
    requires SortedByStep(t)
    ensures SortedByStep(Insert(t, x))
  {
    if t != [] && t[|t| - 1].step > x.step {
      var init := t[..|t| - 1];
      InsertSorted(init, x);
      var u := Insert(init, x);
      assert u[|u| - 1] == x || u[|u| - 1] == t[|t| - 2];
    }
  }

  /** Inserting `x` adds it to the end of its step's subsequence and changes no other. */
  lemma {:induction false} InsertWithStep(t: seq<Shot>, x: Shot, v: nat)
    ensures WithStep(Insert(t, x), v) == WithStep(t, v) + (if x.step == v then [x] else [])
  {
    if t == [] || t[|t| - 1].step <= x.step {
      assert Insert(t, x) == t + [x];
      WithStepSnoc(t, x, v);
    } else {
      var init, last := t[..|t| - 1], t[|t| - 1];
      InsertWithStep(init, x, v);
      var u := Insert(init, x);
      assert Insert(t, x) == u + [last];
      assert t == init + [last];
      if x.step == v {
        // `last` has a larger step than `x`, so only `x` joins the subsequence.
        WithStepSnoc(u, last, v);
        WithStepSnoc(init, last, v);
        assert WithStep(Insert(t, x), v) == WithStep(u, v) + [];
        assert WithStep(t, v) == WithStep(init, v) + [];
      } else {
        // `x` is not collected, so the subsequence changes only by `last`, as in `t`.
        WithStepSnoc(u, last, v);
        WithStepSnoc(init, last, v);
        assert WithStep(u, v) == WithStep(init, v) + [];
      }
    }
  }

  /** Appending one entry extends its step's subsequence only. */
  lemma WithStepSnoc(u: seq<Shot>, y: Shot, v: nat)
    ensures WithStep(u + [y], v) == WithStep(u, v) + (if y.step == v then [y] else [])
  {
    assert (u + [y])[..|u|] == u;
  }

  /** The sorted result is non-decreasing by step. */
  lemma {:induction false} StableSortSorted(s: seq<Shot>)
    ensures SortedByStep(StableSort(s))
  {
    if s != [] {
      StableSortSorted(s[..|s| - 1]);
      InsertSorted(StableSort(s[..|s| - 1]), s[|s| - 1]);
    }
  }

  /** Entries of equal step keep their relative order. */
  lemma {:induction false} StableSortStable(s: seq<Shot>, v: nat)
    ensures WithStep(StableSort(s), v) == WithStep(s, v)
  {
    if s != [] {
      var init := s[..|s| - 1];
      StableSortStable(init, v);
      InsertWithStep(StableSort(init), s[|s| - 1], v);
    }
  }

  /**
    Two sequences ordered by step that agree on the entries of every step are
    equal: whatever stable algorithm the runtime uses, its result is StableSort.
  */
  lemma {:induction false} SortUnique(r: seq<Shot>, s: seq<Shot>)
    requires SortedByStep(r) && SortedByStep(s)
    requires forall v :: WithStep(r, v) == WithStep(s, v)
    ensures r == s
    decreases |r| + |s|
  {
    if r != [] || s != [] {
      SortUniqueStep(r, s);
      var ra, sb := r[..|r| - 1], s[..|s| - 1];
      SortUnique(ra, sb);
      assert r == ra + [r[|r| - 1]] && s == sb + [s[|s| - 1]];
    }
  }

  /** `r` and `s` have the same subsequence for every step. */
  ghost predicate SameRuns(r: seq<Shot>, s: seq<Shot>)
  {
    forall v :: WithStep(r, v) == WithStep(s, v)
  }

  /**
    One step of SortUnique: when either sequence is non-empty both are, they
    end in the same entry, and what precedes it satisfies the hypotheses again.
  */
  lemma SortUniqueStep(r: seq<Shot>, s: seq<Shot>)
    requires SortedByStep(r) && SortedByStep(s)
    requires forall v :: WithStep(r, v) == WithStep(s, v)
    requires r != [] || s != []
    ensures r != [] && s != [] && r[|r| - 1] == s[|s| - 1]
    ensures SortedByStep(r[..|r| - 1]) && SortedByStep(s[..|s| - 1])
    ensures SameRuns(r[..|r| - 1], s[..|s| - 1])
  {
    if s != [] {
      WithStepOfLast(s);
      assert WithStep(r, s[|s| - 1].step) == WithStep(s, s[|s| - 1].step);
    }
    if r != [] {
      WithStepOfLast(r);
      assert WithStep(r, r[|r| - 1].step) == WithStep(s, r[|r| - 1].step);
    }
    LastsAgree(r, s);
    var ra, sb := r[..|r| - 1], s[..|s| - 1];
    forall v ensures WithStep(ra, v) == WithStep(sb, v) {
      DropLastAgree(r, s, v);
    }
    SortedPrefix(r);
    SortedPrefix(s);
  }

  /** Removing a common last entry keeps two step subsequences equal. */
  lemma DropLastAgree(r: seq<Shot>, s: seq<Shot>, v: nat)
    requires r != [] && s != [] && r[|r| - 1] == s[|s| - 1]
    requires WithStep(r, v) == WithStep(s, v)
    ensures WithStep(r[..|r| - 1], v) == WithStep(s[..|s| - 1], v)
  {
    var a := r[|r| - 1];
    var x := if a.step == v then [a] else [];
    var wa, wb := WithStep(r[..|r| - 1], v), WithStep(s[..|s| - 1], v);
    assert WithStep(r, v) == wa + x;
    assert WithStep(s, v) == wb + x;
    assert wa == (wa + x)[..|wa|];
    assert wb == (wb + x)[..|wb|];
  }

  /** The last entry of a non-empty sequence is the last entry of its step's subsequence. */
  lemma WithStepOfLast(s: seq<Shot>)
    requires s != []
    ensures WithStep(s, s[|s| - 1].step) == WithStep(s[..|s| - 1], s[|s| - 1].step) + [s[|s| - 1]]
  {
  }

  /** Sorted sequences that agree on the subsequences of their last steps end in the same entry. */
  lemma LastsAgree(r: seq<Shot>, s: seq<Shot>)
    requires SortedByStep(r) && SortedByStep(s) && r != [] && s != []
    requires WithStep(r, r[|r| - 1].step) == WithStep(s, r[|r| - 1].step)
    requires WithStep(r, s[|s| - 1].step) == WithStep(s, s[|s| - 1].step)
    ensures r[|r| - 1] == s[|s| - 1]
  {
    var a, b := r[|r| - 1], s[|s| - 1];
    WithStepOfLast(r);
    WithStepOfLast(s);
    var wa, wb := WithStep(r, a.step), WithStep(s, b.step);
    assert wa[|wa| - 1] == a && wb[|wb| - 1] == b;
    assert a in WithStep(s, a.step) by { assert wa == WithStep(s, a.step); }
    assert b in WithStep(r, b.step) by { assert wb == WithStep(r, b.step); }
    StepBelowLast(s, a);
    StepBelowLast(r, b);
    assert a.step == b.step;
    assert wa == wb;
  }

  /** An entry found in some step's subsequence has a step no greater than the last one. */
  lemma StepBelowLast(s: seq<Shot>, e: Shot)
    requires SortedByStep(s) && s != [] && e in WithStep(s, e.step)
    ensures e.step <= s[|s| - 1].step
  {
    WithStepSound(s, e.step, e);
    var k :| 0 <= k < |s| && s[k] == e;
    assert s[k].step <= s[|s| - 1].step;
  }

  lemma SortedPrefix(s: seq<Shot>)
    requires SortedByStep(s) && s != []
    ensures SortedByStep(s[..|s| - 1])
  {
  }

  /**
    The contract of `Array.prototype.sort` with comparator `a.step - b.step`:
    a permutation, ordered by step, stable; and StableSort is the only such result.
  */
  lemma StableSortIsTheStableSort(s: seq<Shot>, r: seq<Shot>)
    ensures multiset(StableSort(s)) == multiset(s) && SortedByStep(StableSort(s))
    ensures forall v :: WithStep(StableSort(s), v) == WithStep(s, v)
    ensures SortedByStep(r) && (forall v :: WithStep(r, v) == WithStep(s, v)) ==> r == StableSort(s)
  {
    StableSortSorted(s);
    forall v ensures WithStep(StableSort(s), v) == WithStep(s, v) {
      StableSortStable(s, v);
    }
    if SortedByStep(r) && (forall v :: WithStep(r, v) == WithStep(s, v)) {
      SortUnique(r, StableSort(s));
    }
  }
}
