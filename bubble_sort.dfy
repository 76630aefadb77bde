/** generateBubbleSortSteps of the number visualiser: n - 1 passes over a
    copy of the bars, pass i comparing every adjacent pair [j, j + 1] with
    j < n - i - 1 and exchanging it when out of order, then announcing that
    the last i + 1 positions hold their final values.

    The recorded behaviour is given first as pure functions on the array
    contents, one per loop level in tail form (the loop's state from a
    position on), with its properties proved as lemmas; the nested loops at
    the end are proved to produce exactly it. */
module BubbleSort {
  import opened Common
  import opened Traces

  // ---------------------------------------------------------------------
  // The inner loop

  /** One iteration of the inner loop at j: record the comparison of j and
      j + 1 and, when the left value is greater, exchange the two and record
      the exchange. */
  function BubbleStep(p: Run<int>, j: int): (r: Run<int>)
    requires 0 <= j < |p.arr| - 1
    ensures |r.arr| == |p.arr|
  {
    var compare := Comparing(p.arr, j, j + 1);
    if p.arr[j] > p.arr[j + 1] then
      var t := Swapped(p.arr, j, j + 1);
      Run(t, p.steps + [compare] + [Plain(t, Swap)])
    else
      Run(p.arr, p.steps + [compare])
  }

  /** The inner loop from j on, up to the last pair [hi - 1, hi]. */
  function InnerFrom(p: Run<int>, j: int, hi: int): (r: Run<int>)
    requires 0 <= j && hi < |p.arr|
    ensures |r.arr| == |p.arr|
    decreases hi - j, 1
  {
    if j >= hi then p else InnerOn(p, j, hi)
  }

  /** The inner loop from a j that still has a pair to compare: one
      iteration, then the rest. A separate member of the recursion so that
      unfolding InnerFrom once stops here. */
  function InnerOn(p: Run<int>, j: int, hi: int): (r: Run<int>)
    requires 0 <= j < hi < |p.arr|
    ensures |r.arr| == |p.arr|
    decreases hi - j, 0
  {
    InnerFrom(BubbleStep(p, j), j + 1, hi)
  }

  // ---------------------------------------------------------------------
  // The outer loop

  /** The indices n - 1, n - 2, ..., n - m: the last m positions, from the
      end backwards. */
  function Tail(n: int, m: nat): (r: seq<int>)
    ensures |r| == m
    ensures forall k :: 0 <= k < m ==> r[k] == n - 1 - k
  {
    seq(m, k => n - 1 - k)
  }

  /** The step closing pass i: the last i + 1 positions are marked sorted. */
  function PassMark(s: seq<int>, i: nat): Step<int>
  {
    Step(s, None, None, Some(Tail(|s|, i + 1)), None, PassDone)
  }

  /** Pass i: the inner loop over [0, n - i - 1], then the pass's mark. */
  function PassStep(p: Run<int>, i: int): (r: Run<int>)
    requires 0 <= i < |p.arr| - 1
    ensures |r.arr| == |p.arr|
  {
    var q := InnerFrom(p, 0, |p.arr| - i - 1);
    Run(q.arr, q.steps + [PassMark(q.arr, i)])
  }

  /** The outer loop from pass i on, up to pass n - 2. */
  function PassesFrom(p: Run<int>, i: int): (r: Run<int>)
    requires 0 <= i
    ensures |r.arr| == |p.arr|
    decreases |p.arr| - i, 1
  {
    if i >= |p.arr| - 1 then p else PassesOn(p, i)
  }

  /** The outer loop from a pass that runs: that pass, then the rest. */
  function PassesOn(p: Run<int>, i: int): (r: Run<int>)
    requires 0 <= i < |p.arr| - 1
    ensures |r.arr| == |p.arr|
    decreases |p.arr| - i, 0
  {
    PassesFrom(PassStep(p, i), i + 1)
  }

  /** The whole trace for input data: the start step, the passes, and the
      completion step over the sorted copy. */
  function BubbleSortSteps(data: seq<int>): seq<Step<int>>
  {
    var r := PassesFrom(Run(data, [Plain(data, Start)]), 0);
    r.steps + [Finished(r.arr)]
  }

  // ---------------------------------------------------------------------
  // Order

  /** Position j holds the largest value of s[0..j]. */
  ghost predicate MaxAt(s: seq<int>, j: int)
  {
    0 <= j < |s| && forall k :: 0 <= k < j ==> s[k] <= s[j]
  }

  /** The last m positions of s hold its m largest values in order: they
      are sorted and no earlier value exceeds any of them. */
  ghost predicate Settled(s: seq<int>, m: int)
  {
    && 0 <= m <= |s|
    && SortedRange(IntKey, s, |s| - m, |s|)
    && forall a, b :: 0 <= a < |s| - m <= b < |s| ==> s[a] <= s[b]
  }

  /** An iteration carries the largest value seen so far one place right,
      touches only j and j + 1 and permutes the array. */
  lemma StepMax(p: Run<int>, j: int)
    requires 0 <= j < |p.arr| - 1
    ensures var d := BubbleStep(p, j);
      && (MaxAt(p.arr, j) ==> MaxAt(d.arr, j + 1))
      && SameOutside(d.arr, p.arr, j, j + 2)
      && multiset(d.arr) == multiset(p.arr)
  {
    if p.arr[j] > p.arr[j + 1] {
      SwappedFacts(p.arr, j, j + 1);
      SwappedPerm(p.arr, j, j + 1);
    }
  }

  /** The inner loop from j brings the largest value of s[0..hi] to hi when
      position j held the largest of s[0..j]; it touches only [j, hi] and
      permutes the array. */
  lemma {:induction false} FromMax(p: Run<int>, j: int, hi: int)
    requires 0 <= j && hi < |p.arr|
    ensures var r := InnerFrom(p, j, hi);
      && (MaxAt(p.arr, j) && j <= hi ==> MaxAt(r.arr, hi))
      && SameOutside(r.arr, p.arr, j, hi + 1)
      && multiset(r.arr) == multiset(p.arr)
    decreases hi - j
  {
    if j < hi {
      var d := BubbleStep(p, j);
      assert InnerFrom(p, j, hi) == InnerFrom(d, j + 1, hi) by {
        assert InnerFrom(p, j, hi) == InnerOn(p, j, hi);
      }
      StepMax(p, j);
      FromMax(d, j + 1, hi);
      SameOutsideTrans(InnerFrom(d, j + 1, hi).arr, d.arr, p.arr, j + 1, hi + 1, j, j + 2, j, hi + 1);
    }
  }

  /** Values of u's first c positions, a rearrangement of s's, stay below
      every value s holds from c on when s's did. */
  lemma PrefixBound(s: seq<int>, u: seq<int>, c: int)
    requires |s| == |u| && 0 <= c <= |s|
    requires multiset(u[..c]) == multiset(s[..c])
    requires forall a, b :: 0 <= a < c <= b < |s| ==> s[a] <= s[b]
    ensures forall a, b :: 0 <= a < c <= b < |s| ==> u[a] <= s[b]
  {
    forall a, b | 0 <= a < c <= b < |s| ensures u[a] <= s[b] {
      assert u[..c][a] == u[a];
      assert u[a] in multiset(s[..c]);
      var a' :| 0 <= a' < c && s[..c][a'] == u[a];
    }
  }

  /** Pass i settles one more position: after it, the last i + 1 positions
      hold the i + 1 largest values in order. */
  lemma PassSettles(p: Run<int>, i: int)
    requires 0 <= i < |p.arr| - 1 && Settled(p.arr, i)
    ensures Settled(PassStep(p, i).arr, i + 1)
  {
    var hi := |p.arr| - i - 1;
    var u := InnerFrom(p, 0, hi).arr;
    assert MaxAt(u, hi) && SameOutside(u, p.arr, 0, hi + 1) && multiset(u) == multiset(p.arr) by {
      FromMax(p, 0, hi);
    }
    MaxSettles(p.arr, u, i);
  }

  /** Rearranging the unsettled prefix of s so that its largest value comes
      last settles one more position. */
  lemma MaxSettles(s: seq<int>, u: seq<int>, i: int)
    requires 0 <= i < |s| - 1 && Settled(s, i)
    requires MaxAt(u, |s| - i - 1) && SameOutside(u, s, 0, |s| - i) && multiset(u) == multiset(s)
    ensures Settled(u, i + 1)
  {
    var n, hi := |s|, |s| - i - 1;
    assert multiset(u[..hi + 1]) == multiset(s[..hi + 1]) by {
      SegmentPerm(u, s, 0, hi + 1);
      assert u[0..hi + 1] == u[..hi + 1] && s[0..hi + 1] == s[..hi + 1];
    }
    PrefixBound(s, u, hi + 1);
    forall a, b | hi <= a < b < n ensures u[a] <= u[b] {
      assert u[b] == s[b];
    }
    forall a, b | 0 <= a < hi <= b < n ensures u[a] <= u[b] {
      if b > hi {
        assert u[b] == s[b];
      }
    }
  }

  /** A prefix of at most one value below a settled block leaves the whole
      sequence sorted. */
  lemma SettledSorted(s: seq<int>, m: int)
    requires Settled(s, m) && |s| - 1 <= m
    ensures SortedBy(IntKey, s)
  {
  }

  /** The passes from i on sort the array when its last i positions are
      settled; they touch only [0, n - i) and permute the array. */
  lemma {:induction false} PassesSort(p: Run<int>, i: int)
    requires 0 <= i
    ensures var r := PassesFrom(p, i);
      && (Settled(p.arr, i) ==> SortedBy(IntKey, r.arr))
      && SameOutside(r.arr, p.arr, 0, |p.arr| - i)
      && multiset(r.arr) == multiset(p.arr)
    decreases |p.arr| - i
  {
    if i < |p.arr| - 1 {
      var q := PassStep(p, i);
      assert PassesFrom(p, i) == PassesFrom(q, i + 1) by {
        assert PassesFrom(p, i) == PassesOn(p, i);
      }
      assert SameOutside(q.arr, p.arr, 0, |p.arr| - i) && multiset(q.arr) == multiset(p.arr) by {
        FromMax(p, 0, |p.arr| - i - 1);
      }
      if Settled(p.arr, i) {
        PassSettles(p, i);
      }
      PassesSort(q, i + 1);
    } else if Settled(p.arr, i) {
      SettledSorted(p.arr, i);
    }
  }

  // ---------------------------------------------------------------------
  // Comparisons

  /** The adjacent pairs [j, j + 1], ..., [hi - 1, hi]. */
  function AdjacentPairs(j: int, hi: int): seq<seq<int>>
    decreases hi - j
  {
    if j >= hi then [] else [[j, j + 1]] + AdjacentPairs(j + 1, hi)
  }

  /** The pairs passes i, ..., n - 2 compare, pass by pass. */
  function BubblePairs(n: int, i: int): seq<seq<int>>
    decreases n - i
  {
    if i >= n - 1 then [] else AdjacentPairs(0, n - i - 1) + BubblePairs(n, i + 1)
  }

  /** Passes i, ..., n - 2 compare (n - i)(n - i - 1) / 2 pairs. */
  lemma {:induction false} BubblePairsCount(n: int, i: int)
    requires 0 <= i <= n
    ensures 2 * |BubblePairs(n, i)| == (n - i) * (n - i - 1)
    decreases n - i
  {
    if i < n - 1 {
      AdjacentPairsCount(0, n - i - 1);
      BubblePairsCount(n, i + 1);
      assert (n - i) * (n - i - 1) == 2 * (n - i - 1) + (n - i - 1) * (n - i - 2);
    }
  }

  /** Every pair passes i, ..., n - 2 compare lies inside [0, n - 1]. */
  lemma {:induction false} BubblePairsIn(n: int, i: int)
    requires 0 <= i
    ensures PairsIn(BubblePairs(n, i), 0, n - 1)
    decreases n - i
  {
    if i < n - 1 {
      AdjacentPairsIn(0, n - i - 1);
      PairsInWiden(AdjacentPairs(0, n - i - 1), 0, n - i - 1, 0, n - 1);
      BubblePairsIn(n, i + 1);
      PairsInConcat(AdjacentPairs(0, n - i - 1), BubblePairs(n, i + 1), 0, n - 1);
    }
  }

  lemma {:induction false} AdjacentPairsIn(j: int, hi: int)
    requires 0 <= j
    ensures PairsIn(AdjacentPairs(j, hi), 0, hi)
    decreases hi - j
  {
    if j < hi {
      AdjacentPairsIn(j + 1, hi);
      assert ([[j, j + 1]] + AdjacentPairs(j + 1, hi))[1..] == AdjacentPairs(j + 1, hi);
    }
  }

  lemma {:induction false} AdjacentPairsCount(j: int, hi: int)
    requires j <= hi
    ensures |AdjacentPairs(j, hi)| == hi - j
    decreases hi - j
  {
    if j < hi {
      AdjacentPairsCount(j + 1, hi);
    }
  }

  /** An iteration records one comparison, of j and j + 1. */
  lemma StepCompares(p: Run<int>, j: int)
    requires 0 <= j < |p.arr| - 1
    ensures Comparisons(BubbleStep(p, j).steps) == Comparisons(p.steps) + [[j, j + 1]]
  {
    var compare := Comparing(p.arr, j, j + 1);
    assert Comparisons([compare]) == [[j, j + 1]] by {
      OneStep(compare, Compare, multiset{});
    }
    ComparisonsConcat(p.steps, [compare]);
    if p.arr[j] > p.arr[j + 1] {
      var t := Swapped(p.arr, j, j + 1);
      assert Comparisons([Plain(t, Swap)]) == [] by {
        OneStep(Plain(t, Swap), Swap, multiset{});
      }
      ComparisonsConcat(p.steps + [compare], [Plain(t, Swap)]);
    }
  }

  /** The inner loop from j compares exactly the adjacent pairs from j on, in order. */
  lemma {:induction false} FromCompares(p: Run<int>, j: int, hi: int)
    requires 0 <= j && hi < |p.arr|
    ensures Comparisons(InnerFrom(p, j, hi).steps) == Comparisons(p.steps) + AdjacentPairs(j, hi)
    decreases hi - j
  {
    if j < hi {
      var d := BubbleStep(p, j);
      assert InnerFrom(p, j, hi) == InnerFrom(d, j + 1, hi) by {
        assert InnerFrom(p, j, hi) == InnerOn(p, j, hi);
      }
      assert Comparisons(d.steps) == Comparisons(p.steps) + [[j, j + 1]] by {
        StepCompares(p, j);
      }
      FromCompares(d, j + 1, hi);
      assert AdjacentPairs(j, hi) == [[j, j + 1]] + AdjacentPairs(j + 1, hi);
      AppendAssoc2(Comparisons(p.steps), [[j, j + 1]], AdjacentPairs(j + 1, hi));
    }
  }

  /** Pass i compares [0, 1], ..., [n - i - 2, n - i - 1], and its mark compares nothing. */
  lemma PassCompares(p: Run<int>, i: int)
    requires 0 <= i < |p.arr| - 1
    ensures Comparisons(PassStep(p, i).steps) == Comparisons(p.steps) + AdjacentPairs(0, |p.arr| - i - 1)
  {
    var q := InnerFrom(p, 0, |p.arr| - i - 1);
    FromCompares(p, 0, |p.arr| - i - 1);
    ComparisonsConcat(q.steps, [PassMark(q.arr, i)]);
    assert Comparisons([PassMark(q.arr, i)]) == [] by {
      OneStep(PassMark(q.arr, i), PassDone, multiset{});
    }
  }

  /** The passes from i on compare exactly BubblePairs(n, i), in order. */
  lemma {:induction false} PassesCompares(p: Run<int>, i: int)
    requires 0 <= i
    ensures Comparisons(PassesFrom(p, i).steps) == Comparisons(p.steps) + BubblePairs(|p.arr|, i)
    decreases |p.arr| - i
  {
    if i < |p.arr| - 1 {
      var q := PassStep(p, i);
      assert PassesFrom(p, i) == PassesFrom(q, i + 1) by {
        assert PassesFrom(p, i) == PassesOn(p, i);
      }
      PassCompares(p, i);
      PassesCompares(q, i + 1);
      assert Comparisons(p.steps) + AdjacentPairs(0, |p.arr| - i - 1) + BubblePairs(|p.arr|, i + 1)
          == Comparisons(p.steps) + BubblePairs(|p.arr|, i);
    } else {
      assert BubblePairs(|p.arr|, i) == [];
    }
  }

  // ---------------------------------------------------------------------
  // Snapshots

  /** An iteration's snapshots are permutations of the array it started from. */
  lemma StepSnapshots(p: Run<int>, j: int, m: multiset<int>)
    requires 0 <= j < |p.arr| - 1
    requires SnapshotsPerm(p.steps, m) && multiset(p.arr) == m
    ensures SnapshotsPerm(BubbleStep(p, j).steps, m)
  {
    var compare := Comparing(p.arr, j, j + 1);
    assert SnapshotsPerm([compare], m) by {
      OneStep(compare, Compare, m);
    }
    SnapshotsPermConcat(p.steps, [compare], m);
    if p.arr[j] > p.arr[j + 1] {
      var t := Swapped(p.arr, j, j + 1);
      SwappedPerm(p.arr, j, j + 1);
      assert SnapshotsPerm([Plain(t, Swap)], m) by {
        OneStep(Plain(t, Swap), Swap, m);
      }
      SnapshotsPermConcat(p.steps + [compare], [Plain(t, Swap)], m);
    }
  }

  lemma {:induction false} FromSnapshots(p: Run<int>, j: int, hi: int, m: multiset<int>)
    requires 0 <= j && hi < |p.arr|
    requires SnapshotsPerm(p.steps, m) && multiset(p.arr) == m
    ensures SnapshotsPerm(InnerFrom(p, j, hi).steps, m)
    decreases hi - j
  {
    if j < hi {
      var d := BubbleStep(p, j);
      assert InnerFrom(p, j, hi) == InnerFrom(d, j + 1, hi) by {
        assert InnerFrom(p, j, hi) == InnerOn(p, j, hi);
      }
      StepSnapshots(p, j, m);
      StepMax(p, j);
      FromSnapshots(d, j + 1, hi, m);
    }
  }

  /** A pass's snapshots, its mark's included, are permutations of the
      array it started from, and so is the array it leaves. */
  lemma PassSnapshots(p: Run<int>, i: int, m: multiset<int>)
    requires 0 <= i < |p.arr| - 1
    requires SnapshotsPerm(p.steps, m) && multiset(p.arr) == m
    ensures SnapshotsPerm(PassStep(p, i).steps, m) && multiset(PassStep(p, i).arr) == m
  {
    var inner := InnerFrom(p, 0, |p.arr| - i - 1);
    FromSnapshots(p, 0, |p.arr| - i - 1, m);
    assert multiset(inner.arr) == m by {
      FromMax(p, 0, |p.arr| - i - 1);
    }
    assert SnapshotsPerm([PassMark(inner.arr, i)], m) by {
      OneStep(PassMark(inner.arr, i), PassDone, m);
    }
    SnapshotsPermConcat(inner.steps, [PassMark(inner.arr, i)], m);
  }

  /** Every snapshot the passes from i on record is a permutation of the
      array they started from. */
  lemma {:induction false} PassesSnapshots(p: Run<int>, i: int, m: multiset<int>)
    requires 0 <= i
    requires SnapshotsPerm(p.steps, m) && multiset(p.arr) == m
    ensures SnapshotsPerm(PassesFrom(p, i).steps, m)
    decreases |p.arr| - i
  {
    if i < |p.arr| - 1 {
      var q := PassStep(p, i);
      assert PassesFrom(p, i) == PassesFrom(q, i + 1) by {
        assert PassesFrom(p, i) == PassesOn(p, i);
      }
      PassSnapshots(p, i, m);
      PassesSnapshots(q, i + 1, m);
    }
  }

  // ---------------------------------------------------------------------
  // Pass marks

  /** A pass-done step marks the last k positions for some k, none of them
      below lo, and its snapshot already holds there what t holds. Other
      steps are unconstrained. */
  ghost predicate FinalMark(st: Step<int>, t: seq<int>, lo: int)
  {
    st.kind == PassDone ==>
      && st.sorted.Some?
      && |st.snapshot| == |t|
      && |st.sorted.value| <= |t|
      && lo <= |t| - |st.sorted.value|
      && st.sorted.value == Tail(|t|, |st.sorted.value|)
      && st.snapshot[|t| - |st.sorted.value|..] == t[|t| - |st.sorted.value|..]
  }

  ghost predicate MarksFinal(ss: seq<Step<int>>, t: seq<int>, lo: int)
  {
    |ss| == 0 || (FinalMark(ss[0], t, lo) && MarksFinal(ss[1..], t, lo))
  }

  lemma MarksOne(st: Step<int>, t: seq<int>, lo: int)
    ensures MarksFinal([st], t, lo) <==> FinalMark(st, t, lo)
  {
    assert [st][1..] == [];
  }

  lemma {:induction false} MarksFinalConcat(ss: seq<Step<int>>, tt: seq<Step<int>>, t: seq<int>, lo: int)
    requires MarksFinal(ss, t, lo) && MarksFinal(tt, t, lo)
    ensures MarksFinal(ss + tt, t, lo)
    decreases |ss|
  {
    if |ss| > 0 {
      assert (ss + tt)[1..] == ss[1..] + tt;
      MarksFinalConcat(ss[1..], tt, t, lo);
    } else {
      assert ss + tt == tt;
    }
  }

  /** Marks stay true while t changes below lo only, and lo may be lowered. */
  lemma {:induction false} MarksFinalTransfer(ss: seq<Step<int>>, t: seq<int>, t': seq<int>, lo: int, lo': int)
    requires MarksFinal(ss, t, lo) && SameOutside(t', t, 0, lo) && lo' <= lo
    ensures MarksFinal(ss, t', lo')
    decreases |ss|
  {
    if |ss| > 0 {
      var st := ss[0];
      if st.kind == PassDone {
        var x := |t| - |st.sorted.value|;
        SliceOutside(t', t, 0, lo, x, |t|);
      }
      MarksFinalTransfer(ss[1..], t, t', lo, lo');
    }
  }

  /** The inner loop records no pass-done step. */
  lemma {:induction false} FromMarks(p: Run<int>, j: int, hi: int, t: seq<int>, lo: int)
    requires 0 <= j && hi < |p.arr|
    requires MarksFinal(p.steps, t, lo)
    ensures MarksFinal(InnerFrom(p, j, hi).steps, t, lo)
    ensures CountKind(InnerFrom(p, j, hi).steps, PassDone) == CountKind(p.steps, PassDone)
    decreases hi - j
  {
    if j < hi {
      var d := BubbleStep(p, j);
      assert InnerFrom(p, j, hi) == InnerFrom(d, j + 1, hi) by {
        assert InnerFrom(p, j, hi) == InnerOn(p, j, hi);
      }
      StepMarks(p, j, t, lo);
      FromMarks(d, j + 1, hi, t, lo);
    }
  }

  lemma StepMarks(p: Run<int>, j: int, t: seq<int>, lo: int)
    requires 0 <= j < |p.arr| - 1
    requires MarksFinal(p.steps, t, lo)
    ensures MarksFinal(BubbleStep(p, j).steps, t, lo)
    ensures CountKind(BubbleStep(p, j).steps, PassDone) == CountKind(p.steps, PassDone)
  {
    var compare := Comparing(p.arr, j, j + 1);
    assert MarksFinal([compare], t, lo) && CountKind([compare], PassDone) == 0 by {
      OneStep(compare, PassDone, multiset{});
      MarksOne(compare, t, lo);
    }
    MarksFinalConcat(p.steps, [compare], t, lo);
    CountKindConcat(p.steps, [compare], PassDone);
    if p.arr[j] > p.arr[j + 1] {
      var sw := Plain(Swapped(p.arr, j, j + 1), Swap);
      assert MarksFinal([sw], t, lo) && CountKind([sw], PassDone) == 0 by {
        OneStep(sw, PassDone, multiset{});
        MarksOne(sw, t, lo);
      }
      MarksFinalConcat(p.steps + [compare], [sw], t, lo);
      CountKindConcat(p.steps + [compare], [sw], PassDone);
    }
  }

  /** Pass i keeps the earlier marks, which all lie at n - i or beyond, and
      ends with its own pass-done step, which marks exactly the positions
      n - 1, ..., n - 1 - i; those hold what the array after the pass holds. */
  lemma PassMarks(p: Run<int>, i: int)
    requires 0 <= i < |p.arr| - 1
    requires MarksFinal(p.steps, p.arr, |p.arr| - i)
    ensures var q := PassStep(p, i);
      && |q.steps| > 0
      && q.steps[|q.steps| - 1].kind == PassDone
      && q.steps[|q.steps| - 1].sorted == Some(Tail(|p.arr|, i + 1))
      && MarksFinal(q.steps, q.arr, |p.arr| - i - 1)
      && CountKind(q.steps, PassDone) == CountKind(p.steps, PassDone) + 1
  {
    var n := |p.arr|;
    var inner := InnerFrom(p, 0, n - i - 1);
    var mark := PassMark(inner.arr, i);
    assert SameOutside(inner.arr, p.arr, 0, n - i) by {
      FromMax(p, 0, n - i - 1);
    }
    MarksFinalTransfer(p.steps, p.arr, inner.arr, n - i, n - i - 1);
    FromMarks(p, 0, n - i - 1, inner.arr, n - i - 1);
    assert MarksFinal([mark], inner.arr, n - i - 1) && CountKind([mark], PassDone) == 1 by {
      OneStep(mark, PassDone, multiset{});
      MarksOne(mark, inner.arr, n - i - 1);
    }
    MarksFinalConcat(inner.steps, [mark], inner.arr, n - i - 1);
    CountKindConcat(inner.steps, [mark], PassDone);
    assert PassStep(p, i).steps == inner.steps + [mark];
  }

  /** Every mark the passes from i on record, and every earlier one, names a
      suffix whose values the final array holds; passes i, ..., n - 2 record
      one mark each. */
  lemma {:induction false} PassesMarks(p: Run<int>, i: int)
    requires 0 <= i <= |p.arr|
    requires MarksFinal(p.steps, p.arr, |p.arr| - i)
    ensures var r := PassesFrom(p, i);
      && MarksFinal(r.steps, r.arr, 0)
      && CountKind(r.steps, PassDone) == CountKind(p.steps, PassDone) + (if i < |p.arr| - 1 then |p.arr| - 1 - i else 0)
    decreases |p.arr| - i
  {
    if i < |p.arr| - 1 {
      var q := PassStep(p, i);
      assert PassesFrom(p, i) == PassesFrom(q, i + 1) by {
        assert PassesFrom(p, i) == PassesOn(p, i);
      }
      PassMarks(p, i);
      PassesMarks(q, i + 1);
    } else {
      MarksFinalTransfer(p.steps, p.arr, p.arr, |p.arr| - i, 0);
    }
  }

  // ---------------------------------------------------------------------
  // generateBubbleSortSteps

  /** The trace opens on the input and closes on a sorted permutation of it
      with every index marked sorted; inputs of at most one element give
      just these two steps. */
  lemma BubbleSortEnds(data: seq<int>)
    ensures var ss := BubbleSortSteps(data);
      && |ss| >= 2
      && ss[0] == Plain(data, Start)
      && ss[|ss| - 1].kind == Complete
      && ss[|ss| - 1].sorted == Some(Range(0, |data|))
      && SortedBy(IntKey, ss[|ss| - 1].snapshot)
      && multiset(ss[|ss| - 1].snapshot) == multiset(data)
      && (|data| <= 1 <==> |ss| == 2)
  {
    var p := Run(data, [Plain(data, Start)]);
    var r := PassesFrom(p, 0);
    PassesSort(p, 0);
    PassesMarks(p, 0);
    assert CountKind(p.steps, PassDone) == 0 by {
      OneStep(Plain(data, Start), PassDone, multiset{});
    }
    assert r.steps[0] == Plain(data, Start) by {
      PrefixKept(p, 0);
    }
    if |data| > 1 {
      assert CountKind(r.steps, PassDone) > 0;
    }
  }

  /** The passes only append to the steps recorded before them. */
  lemma {:induction false} PrefixKept(p: Run<int>, i: int)
    requires 0 <= i
    ensures var r := PassesFrom(p, i);
      |p.steps| <= |r.steps| && r.steps[..|p.steps|] == p.steps
    decreases |p.arr| - i
  {
    if i < |p.arr| - 1 {
      var q := PassStep(p, i);
      assert PassesFrom(p, i) == PassesFrom(q, i + 1) by {
        assert PassesFrom(p, i) == PassesOn(p, i);
      }
      InnerPrefixKept(p, 0, |p.arr| - i - 1);
      PrefixKept(q, i + 1);
      assert q.steps[..|p.steps|] == p.steps;
    }
  }

  lemma {:induction false} InnerPrefixKept(p: Run<int>, j: int, hi: int)
    requires 0 <= j && hi < |p.arr|
    ensures var r := InnerFrom(p, j, hi);
      |p.steps| <= |r.steps| && r.steps[..|p.steps|] == p.steps
    decreases hi - j
  {
    if j < hi {
      var d := BubbleStep(p, j);
      assert InnerFrom(p, j, hi) == InnerFrom(d, j + 1, hi) by {
        assert InnerFrom(p, j, hi) == InnerOn(p, j, hi);
      }
      InnerPrefixKept(d, j + 1, hi);
      assert d.steps[..|p.steps|] == p.steps;
    }
  }

  /** Bubble sort only exchanges: every snapshot of the trace is a
      permutation of the input. */
  lemma BubbleSortSnapshots(data: seq<int>)
    ensures SnapshotsPerm(BubbleSortSteps(data), multiset(data))
  {
    var p := Run(data, [Plain(data, Start)]);
    var r := PassesFrom(p, 0);
    assert SnapshotsPerm(p.steps, multiset(data)) by {
      OneStep(Plain(data, Start), Start, multiset(data));
    }
    PassesSnapshots(p, 0, multiset(data));
    PassesSort(p, 0);
    assert SnapshotsPerm([Finished(r.arr)], multiset(data)) by {
      OneStep(Finished(r.arr), Complete, multiset(data));
    }
    SnapshotsPermConcat(r.steps, [Finished(r.arr)], multiset(data));
  }

  /** The trace compares, pass by pass, every adjacent pair of the part not
      yet settled: n(n - 1) / 2 comparisons in all. */
  lemma BubbleSortCompares(data: seq<int>)
    ensures Comparisons(BubbleSortSteps(data)) == BubblePairs(|data|, 0)
    ensures 2 * |Comparisons(BubbleSortSteps(data))| == |data| * (|data| - 1)
    ensures PairsIn(Comparisons(BubbleSortSteps(data)), 0, |data| - 1)
  {
    var p := Run(data, [Plain(data, Start)]);
    var r := PassesFrom(p, 0);
    assert Comparisons(p.steps) == [] by {
      OneStep(Plain(data, Start), Start, multiset{});
    }
    PassesCompares(p, 0);
    ComparisonsConcat(r.steps, [Finished(r.arr)]);
    assert Comparisons([Finished(r.arr)]) == [] by {
      OneStep(Finished(r.arr), Complete, multiset{});
    }
    BubblePairsCount(|data|, 0);
    BubblePairsIn(|data|, 0);
  }

  /** For n >= 1 elements the trace closes n - 1 passes, and each pass's
      mark names positions that already hold the final sorted values. */
  lemma BubbleSortMarks(data: seq<int>)
    ensures var ss := BubbleSortSteps(data);
      && CountKind(ss, PassDone) == (if |data| > 0 then |data| - 1 else 0)
      && MarksFinal(ss, ss[|ss| - 1].snapshot, 0)
  {
    var p := Run(data, [Plain(data, Start)]);
    var r := PassesFrom(p, 0);
    assert MarksFinal(p.steps, p.arr, |data|) && CountKind(p.steps, PassDone) == 0 by {
      OneStep(Plain(data, Start), PassDone, multiset{});
      MarksOne(Plain(data, Start), p.arr, |data|);
    }
    PassesMarks(p, 0);
    assert MarksFinal([Finished(r.arr)], r.arr, 0) && CountKind([Finished(r.arr)], PassDone) == 0 by {
      OneStep(Finished(r.arr), PassDone, multiset{});
      MarksOne(Finished(r.arr), r.arr, 0);
    }
    MarksFinalConcat(r.steps, [Finished(r.arr)], r.arr, 0);
    CountKindConcat(r.steps, [Finished(r.arr)], PassDone);
  }

  // ---------------------------------------------------------------------
  // The in-place generator

  /** The inner loop's body on the working copy: exactly one BubbleStep. */
  method CompareAdjacent(a: array<int>, j: int, steps: seq<Step<int>>) returns (steps': seq<Step<int>>)
    requires 0 <= j < a.Length - 1
    modifies a
    ensures Run(a[..], steps') == BubbleStep(Run(old(a[..]), steps), j)
  {
    steps' := steps + [Comparing(a[..], j, j + 1)];
    if a[j] > a[j + 1] {
      a[j], a[j + 1] := a[j + 1], a[j];
      steps' := steps' + [Plain(a[..], Swap)];
    }
  }

  /** generateBubbleSortSteps(data.slice()): the two nested loops over a
      fresh copy, so the caller's data is untouched, recording exactly
      BubbleSortSteps. */
  method GenerateBubbleSortSteps(data: seq<int>) returns (steps: seq<Step<int>>)
    ensures steps == BubbleSortSteps(data)
  {
    var a := new int[|data|](k requires 0 <= k < |data| => data[k]);
    assert a[..] == data;
    var n := a.Length;
    steps := [Plain(a[..], Start)];
    ghost var goal := PassesFrom(Run(a[..], steps), 0);
    var i := 0;
    while i < n - 1
      invariant 0 <= i
      invariant PassesFrom(Run(a[..], steps), i) == goal
    {
      ghost var p := Run(a[..], steps);
      var j := 0;
      while j < n - i - 1
        invariant 0 <= j <= n - i - 1
        invariant InnerFrom(Run(a[..], steps), j, n - i - 1) == InnerFrom(p, 0, n - i - 1)
      {
        assert InnerFrom(Run(a[..], steps), j, n - i - 1) == InnerOn(Run(a[..], steps), j, n - i - 1);
        steps := CompareAdjacent(a, j, steps);
        j := j + 1;
      }
      steps := steps + [PassMark(a[..], i)];
      assert PassesFrom(p, i) == PassesOn(p, i);
      i := i + 1;
    }
    steps := steps + [Finished(a[..])];
  }
}
