/** mergeSortWithSteps and merge, as both visualisers write them: top-down
    merge sort of [start, end] split at mid = floor((start + end) / 2), the
    halves copied out and merged back with ties taken from the left half,
    with a step recorded at every split, comparison and write. Elements are
    compared by an integer key (a fish's price, a bar's own value).

    As for quicksort, the recorded behaviour is first given as pure
    functions on the array contents, its properties are proved as lemmas,
    and the in-place methods at the end are proved to produce exactly it.
    Unlike quicksort, the snapshots taken inside a merge are not
    permutations of the input: a write overwrites a position whose old
    element survives only in the copied halves. */
module MergeSort {
  import opened Common
  import opened Traces

  // ---------------------------------------------------------------------
  // The reference merge

  /** The stable merge of l and r: at every choice the head of l is taken
      when its key is at most the head of r's. */
  function Merged<T>(key: T -> int, l: seq<T>, r: seq<T>): (m: seq<T>)
    ensures |m| == |l| + |r|
    decreases |l| + |r|, 1
  {
    MergedOn(key, l, r)
  }

  /** One choice of that merge, then the rest. A separate member of the
      recursion so that unfolding Merged once stops here. */
  function MergedOn<T>(key: T -> int, l: seq<T>, r: seq<T>): (m: seq<T>)
    ensures |m| == |l| + |r|
    decreases |l| + |r|, 0
  {
    if |l| == 0 then r
    else if |r| == 0 then l
    else if key(l[0]) <= key(r[0]) then [l[0]] + Merged(key, l[1..], r)
    else [r[0]] + Merged(key, l, r[1..])
  }

  /** How many comparisons that merge makes: one per element placed while
      both sides still have elements. */
  function MergeCompares<T>(key: T -> int, l: seq<T>, r: seq<T>): nat
    decreases |l| + |r|
  {
    if |l| == 0 || |r| == 0 then 0
    else if key(l[0]) <= key(r[0]) then 1 + MergeCompares(key, l[1..], r)
    else 1 + MergeCompares(key, l, r[1..])
  }

  /** At least the shorter side is consumed by comparisons, and when both
      sides are non-empty the last element is always placed without one. */
  lemma {:induction false} MergeComparesBounds<T>(key: T -> int, l: seq<T>, r: seq<T>)
    ensures var c := MergeCompares(key, l, r);
      && (if |l| <= |r| then |l| else |r|) <= c
      && (|l| > 0 && |r| > 0 ==> c <= |l| + |r| - 1)
      && (|l| == 0 || |r| == 0 ==> c == 0)
    decreases |l| + |r|
  {
    if |l| > 0 && |r| > 0 {
      if key(l[0]) <= key(r[0]) {
        MergeComparesBounds(key, l[1..], r);
      } else {
        MergeComparesBounds(key, l, r[1..]);
      }
    }
  }

  /** The merge loses and invents nothing. */
  lemma {:induction false} MergedPerm<T>(key: T -> int, l: seq<T>, r: seq<T>)
    ensures multiset(Merged(key, l, r)) == multiset(l) + multiset(r)
    decreases |l| + |r|
  {
    if |l| > 0 && |r| > 0 {
      if key(l[0]) <= key(r[0]) {
        MergedPerm(key, l[1..], r);
        assert l == [l[0]] + l[1..];
      } else {
        MergedPerm(key, l, r[1..]);
        assert r == [r[0]] + r[1..];
      }
    }
  }

  /** A sorted sequence stays sorted behind a head no larger than its elements. */
  lemma ConsSorted<T>(key: T -> int, h: T, s: seq<T>)
    requires SortedBy(key, s)
    requires forall k :: 0 <= k < |s| ==> key(h) <= key(s[k])
    ensures SortedBy(key, [h] + s)
  {
    forall i, j | 0 <= i < j < |[h] + s| ensures key(([h] + s)[i]) <= key(([h] + s)[j]) {
      if i > 0 {
        assert ([h] + s)[i] == s[i - 1];
      }
      assert ([h] + s)[j] == s[j - 1];
    }
  }

  /** Every element of Merged(l, r) comes from l or r. */
  lemma MergedFrom<T>(key: T -> int, l: seq<T>, r: seq<T>, k: int)
    requires 0 <= k < |l| + |r|
    ensures Merged(key, l, r)[k] in l || Merged(key, l, r)[k] in r
  {
    var m := Merged(key, l, r);
    MergedPerm(key, l, r);
    assert m[k] in multiset(m);
  }

  /** Merging two sorted sequences gives a sorted sequence. */
  lemma {:induction false} MergedSorted<T>(key: T -> int, l: seq<T>, r: seq<T>)
    requires SortedBy(key, l) && SortedBy(key, r)
    ensures SortedBy(key, Merged(key, l, r))
    decreases |l| + |r|
  {
    if |l| > 0 && |r| > 0 {
      if key(l[0]) <= key(r[0]) {
        var rest := Merged(key, l[1..], r);
        MergedSorted(key, l[1..], r);
        forall k | 0 <= k < |rest| ensures key(l[0]) <= key(rest[k]) {
          MergedFrom(key, l[1..], r, k);
          if rest[k] in l[1..] {
            var x :| 0 <= x < |l[1..]| && l[1..][x] == rest[k];
            assert l[1..][x] == l[x + 1];
          } else {
            var y :| 0 <= y < |r| && r[y] == rest[k];
          }
        }
        ConsSorted(key, l[0], rest);
      } else {
        var rest := Merged(key, l, r[1..]);
        MergedSorted(key, l, r[1..]);
        forall k | 0 <= k < |rest| ensures key(r[0]) <= key(rest[k]) {
          MergedFrom(key, l, r[1..], k);
          if rest[k] in l {
            var x :| 0 <= x < |l| && l[x] == rest[k];
          } else {
            var y :| 0 <= y < |r[1..]| && r[1..][y] == rest[k];
            assert r[1..][y] == r[y + 1];
          }
        }
        ConsSorted(key, r[0], rest);
      }
    }
  }

  /** The elements of s whose key is x, in their order in s. */
  function WithKey<T>(key: T -> int, s: seq<T>, x: int): seq<T>
  {
    if |s| == 0 then []
    else (if key(s[0]) == x then [s[0]] else []) + WithKey(key, s[1..], x)
  }

  lemma {:induction false} WithKeyConcat<T>(key: T -> int, s: seq<T>, t: seq<T>, x: int)
    ensures WithKey(key, s + t, x) == WithKey(key, s, x) + WithKey(key, t, x)
    decreases |s|
  {
    if |s| > 0 {
      assert (s + t)[1..] == s[1..] + t;
      WithKeyConcat(key, s[1..], t, x);
    } else {
      assert s + t == t;
    }
  }

  lemma {:induction false} WithKeyNone<T>(key: T -> int, s: seq<T>, x: int)
    requires forall k :: 0 <= k < |s| ==> key(s[k]) != x
    ensures WithKey(key, s, x) == []
    decreases |s|
  {
    if |s| > 0 {
      WithKeyNone(key, s[1..], x);
    }
  }

  lemma WithKeyCons<T>(key: T -> int, h: T, s: seq<T>, x: int)
    ensures WithKey(key, [h] + s, x) == (if key(h) == x then [h] else []) + WithKey(key, s, x)
  {
    assert ([h] + s)[1..] == s;
  }

  lemma SortedTail<T>(key: T -> int, s: seq<T>)
    requires SortedBy(key, s) && |s| > 0
    ensures SortedBy(key, s[1..])
    ensures forall k :: 0 <= k < |s| ==> key(s[0]) <= key(s[k])
  {
    forall i, j | 0 <= i < j < |s[1..]| ensures key(s[1..][i]) <= key(s[1..][j]) {
      assert s[1..][i] == s[i + 1] && s[1..][j] == s[j + 1];
    }
  }

  /** The merge is stable: among elements of equal key, those of l come
      first, each side in its own order. It relies on l being sorted, as it
      is when merge is called. */
  lemma {:induction false} MergedStable<T>(key: T -> int, l: seq<T>, r: seq<T>, x: int)
    requires SortedBy(key, l)
    ensures WithKey(key, Merged(key, l, r), x) == WithKey(key, l, x) + WithKey(key, r, x)
    decreases |l| + |r|
  {
    if |l| == 0 {
      assert WithKey(key, l, x) == [];
    } else if |r| == 0 {
      assert WithKey(key, r, x) == [];
    } else if key(l[0]) <= key(r[0]) {
      SortedTail(key, l);
      MergedStable(key, l[1..], r, x);
      StableTakeLeft(key, l, r, x);
    } else {
      MergedStable(key, l, r[1..], x);
      StableTakeRight(key, l, r, x);
    }
  }

  /** The step of MergedStable where the head of l is taken. */
  lemma StableTakeLeft<T>(key: T -> int, l: seq<T>, r: seq<T>, x: int)
    requires |l| > 0 && |r| > 0 && key(l[0]) <= key(r[0])
    requires WithKey(key, Merged(key, l[1..], r), x) == WithKey(key, l[1..], x) + WithKey(key, r, x)
    ensures WithKey(key, Merged(key, l, r), x) == WithKey(key, l, x) + WithKey(key, r, x)
  {
    assert Merged(key, l, r) == [l[0]] + Merged(key, l[1..], r);
    assert l == [l[0]] + l[1..];
    HeadFront(key, l[0], Merged(key, l[1..], r), l[1..], r, x);
  }

  /** Putting h in front of a merge result keeps the filtered order when h
      comes from the first side. */
  lemma HeadFront<T>(key: T -> int, h: T, rest: seq<T>, l: seq<T>, r: seq<T>, x: int)
    requires WithKey(key, rest, x) == WithKey(key, l, x) + WithKey(key, r, x)
    ensures WithKey(key, [h] + rest, x) == WithKey(key, [h] + l, x) + WithKey(key, r, x)
  {
    WithKeyCons(key, h, rest, x);
    WithKeyCons(key, h, l, x);
  }

  /** The step of MergedStable where the head of r is taken: it goes before
      all of l, whose keys are larger since l is sorted. */
  lemma StableTakeRight<T>(key: T -> int, l: seq<T>, r: seq<T>, x: int)
    requires SortedBy(key, l) && |l| > 0 && |r| > 0 && key(r[0]) < key(l[0])
    requires WithKey(key, Merged(key, l, r[1..]), x) == WithKey(key, l, x) + WithKey(key, r[1..], x)
    ensures WithKey(key, Merged(key, l, r), x) == WithKey(key, l, x) + WithKey(key, r, x)
  {
    assert Merged(key, l, r) == [r[0]] + Merged(key, l, r[1..]);
    assert r == [r[0]] + r[1..];
    if key(r[0]) == x {
      assert WithKey(key, l, x) == [] by {
        SortedTail(key, l);
        WithKeyNone(key, l, x);
      }
    }
    HeadFirst(key, r[0], Merged(key, l, r[1..]), l, r[1..], x);
  }

  /** Putting h in front of a merge result keeps the filtered order when h
      comes from the second side and, if it has key x, the first side has no
      element with key x. */
  lemma HeadFirst<T>(key: T -> int, h: T, rest: seq<T>, l: seq<T>, r: seq<T>, x: int)
    requires WithKey(key, rest, x) == WithKey(key, l, x) + WithKey(key, r, x)
    requires key(h) == x ==> WithKey(key, l, x) == []
    ensures WithKey(key, [h] + rest, x) == WithKey(key, l, x) + WithKey(key, [h] + r, x)
  {
    WithKeyCons(key, h, rest, x);
    WithKeyCons(key, h, r, x);
  }

  // ---------------------------------------------------------------------
  // merge, as recorded

  /** The state of merge's loops: the array, how far the copies of the left
      half (i) and of the right half (j) have been consumed, and the steps
      recorded by this call so far. The next write goes to start + i + j. */
  datatype Cursor<T> = Cursor(arr: seq<T>, i: int, j: int, steps: seq<Step<T>>)

  /** c is a state the loops can reach when merging left and right into
      the array from position start. */
  ghost predicate InMerge<T>(left: seq<T>, right: seq<T>, start: int, c: Cursor<T>)
  {
    0 <= start && 0 <= c.i <= |left| && 0 <= c.j <= |right| && start + |left| + |right| <= |c.arr|
  }

  /** One iteration of whichever loop runs at state c. While both copies have
      elements: record the comparison of their heads, write the smaller one
      (the left one on a tie) and record the placement. Once one copy is
      used up: write the next element of the other and record the copy. */
  function MergeStep<T>(key: T -> int, left: seq<T>, right: seq<T>, start: int, mid: int, c: Cursor<T>): (d: Cursor<T>)
    requires InMerge(left, right, start, c) && (c.i < |left| || c.j < |right|)
    ensures InMerge(left, right, start, d) && |d.arr| == |c.arr|
    ensures d.i + d.j == c.i + c.j + 1 && c.i <= d.i && c.j <= d.j
  {
    var k := start + c.i + c.j;
    var fromLeft := c.i < |left| && (c.j == |right| || key(left[c.i]) <= key(right[c.j]));
    var t := if fromLeft then c.arr[k := left[c.i]] else c.arr[k := right[c.j]];
    var recorded := if c.i < |left| && c.j < |right| then [Comparing(c.arr, start + c.i, mid + 1 + c.j), Plain(t, Placed)]
                    else [Plain(t, CopyRemainder)];
    Cursor(t, if fromLeft then c.i + 1 else c.i, if fromLeft then c.j else c.j + 1, c.steps + recorded)
  }

  /** merge's loops from state c until both copies are used up. */
  function MergeFrom<T>(key: T -> int, left: seq<T>, right: seq<T>, start: int, mid: int, c: Cursor<T>): (r: Cursor<T>)
    requires InMerge(left, right, start, c)
    ensures |r.arr| == |c.arr|
    decreases |left| - c.i + |right| - c.j, 1
  {
    if c.i == |left| && c.j == |right| then c
    else MergeOn(key, left, right, start, mid, c)
  }

  /** merge's loops from a state where an element is left to place: one
      iteration, then the rest. A separate member of the recursion so that
      unfolding MergeFrom once stops here. */
  function MergeOn<T>(key: T -> int, left: seq<T>, right: seq<T>, start: int, mid: int, c: Cursor<T>): (r: Cursor<T>)
    requires InMerge(left, right, start, c) && (c.i < |left| || c.j < |right|)
    ensures |r.arr| == |c.arr|
    decreases |left| - c.i + |right| - c.j, 0
  {
    MergeFrom(key, left, right, start, mid, MergeStep(key, left, right, start, mid, c))
  }

  /** The step announcing a merge; only the record visualiser fills in the
      `merging` ranges, with nothing merged yet. */
  function MergingStep<T>(v: Visualiser, s: seq<T>, start: int, mid: int, end: int): Step<T>
    requires start <= mid < end
  {
    var ranges := if v == Records then Some(MergeRanges(Range(start, mid + 1), Range(mid + 1, end + 1), [])) else None;
    Step(s, None, None, None, ranges, MergeStart)
  }

  /** merge(array, start, mid, end): copy [start, mid] and [mid + 1, end],
      record the merging step, then run the loops from (0, 0). */
  function MergeOf<T>(v: Visualiser, key: T -> int, s: seq<T>, start: int, mid: int, end: int): (r: Run<T>)
    requires 0 <= start <= mid < end < |s|
    ensures |r.arr| == |s|
  {
    var c := MergeFrom(key, s[start..mid + 1], s[mid + 1..end + 1], start, mid,
                       Cursor(s, 0, 0, [MergingStep(v, s, start, mid, end)]));
    Run(c.arr, c.steps)
  }

  // One iteration, fact by fact

  /** Writing position k of a splits it around the new element. */
  lemma WriteParts<T>(a: seq<T>, k: int, e: int, x: T)
    requires 0 <= k < e <= |a|
    ensures a[k := x][..k + 1] == a[..k] + [x] && a[k := x][e..] == a[e..]
  {
  }

  /** The reference merge starts with the head its first choice takes. */
  lemma MergedHead<T>(key: T -> int, l: seq<T>, r: seq<T>)
    requires |l| > 0 || |r| > 0
    ensures |l| > 0 && (|r| == 0 || key(l[0]) <= key(r[0])) ==> Merged(key, l, r) == [l[0]] + Merged(key, l[1..], r)
    ensures !(|l| > 0 && (|r| == 0 || key(l[0]) <= key(r[0]))) ==> Merged(key, l, r) == [r[0]] + Merged(key, l, r[1..])
  {
    if |r| == 0 {
      assert Merged(key, l[1..], r) == l[1..];
    } else if |l| == 0 {
      assert Merged(key, l, r[1..]) == r[1..];
    }
  }

  /** The element an iteration writes and the copies it consumes. */
  lemma StepChoice<T>(key: T -> int, left: seq<T>, right: seq<T>, start: int, mid: int, c: Cursor<T>)
    requires InMerge(left, right, start, c) && (c.i < |left| || c.j < |right|)
    ensures var d, k := MergeStep(key, left, right, start, mid, c), start + c.i + c.j;
      var L, R := left[c.i..], right[c.j..];
      && (|L| > 0 && (|R| == 0 || key(L[0]) <= key(R[0])) ==> d.arr == c.arr[k := L[0]] && L[1..] == left[d.i..] && R == right[d.j..])
      && (!(|L| > 0 && (|R| == 0 || key(L[0]) <= key(R[0]))) ==> d.arr == c.arr[k := R[0]] && L == left[d.i..] && R[1..] == right[d.j..])
      && d.steps == c.steps + if c.i < |left| && c.j < |right|
                              then [Comparing(c.arr, start + c.i, mid + 1 + c.j), Plain(d.arr, Placed)]
                              else [Plain(d.arr, CopyRemainder)]
  {
  }

  /** Writing the head of the left copy at k. */
  lemma TakeLeft<T>(key: T -> int, left: seq<T>, right: seq<T>, a: seq<T>, t: seq<T>, i: int, j: int, i': int, k: int, k': int, e: int)
    requires 0 <= i < |left| && 0 <= j <= |right| && (j == |right| || key(left[i]) <= key(right[j]))
    requires 0 <= k < e <= |a| && t == a[k := left[i]] && i' == i + 1 && k' == k + 1
    ensures a[..k] + Merged(key, left[i..], right[j..]) + a[e..] == t[..k'] + Merged(key, left[i'..], right[j..]) + t[e..]
  {
    var L, R := left[i..], right[j..];
    assert L[1..] == left[i'..] && L[0] == left[i];
    MergedHead(key, L, R);
    WriteParts(a, k, e, L[0]);
    WriteHead(a, t, L[0], Merged(key, L[1..], R), k, e);
  }

  /** Writing the head of the right copy at k. */
  lemma TakeRight<T>(key: T -> int, left: seq<T>, right: seq<T>, a: seq<T>, t: seq<T>, i: int, j: int, j': int, k: int, k': int, e: int)
    requires 0 <= i <= |left| && 0 <= j < |right| && !(i < |left| && key(left[i]) <= key(right[j]))
    requires 0 <= k < e <= |a| && t == a[k := right[j]] && j' == j + 1 && k' == k + 1
    ensures a[..k] + Merged(key, left[i..], right[j..]) + a[e..] == t[..k'] + Merged(key, left[i..], right[j'..]) + t[e..]
  {
    var L, R := left[i..], right[j..];
    assert R[1..] == right[j'..] && R[0] == right[j];
    MergedHead(key, L, R);
    WriteParts(a, k, e, R[0]);
    WriteHead(a, t, R[0], Merged(key, L, R[1..]), k, e);
  }

  /** Moving the head of the merged tail into the written prefix. */
  lemma WriteHead<T>(a: seq<T>, t: seq<T>, x: T, m: seq<T>, k: int, e: int)
    requires 0 <= k < e <= |a| == |t|
    requires t[..k + 1] == a[..k] + [x] && t[e..] == a[e..]
    ensures a[..k] + ([x] + m) + a[e..] == t[..k + 1] + m + t[e..]
  {
  }

  /** An iteration records a comparison and a placement while both copies
      have elements, a copy step otherwise. */
  lemma StepKinds<T>(key: T -> int, left: seq<T>, right: seq<T>, start: int, mid: int, c: Cursor<T>, kd: StepKind)
    requires InMerge(left, right, start, c) && (c.i < |left| || c.j < |right|)
    ensures var d, both := MergeStep(key, left, right, start, mid, c), c.i < |left| && c.j < |right|;
      && MergeCompares(key, left[c.i..], right[c.j..])
           == (if both then 1 else 0) + MergeCompares(key, left[d.i..], right[d.j..])
      && |d.steps| == |c.steps| + (if both then 2 else 1)
      && CountKind(d.steps, kd) == CountKind(c.steps, kd)
           + (if both && (kd == Compare || kd == Placed) then 1 else 0)
           + (if !both && kd == CopyRemainder then 1 else 0)
  {
    var d := MergeStep(key, left, right, start, mid, c);
    StepChoice(key, left, right, start, mid, c);
    if c.i < |left| && c.j < |right| {
      var recorded := [Comparing(c.arr, start + c.i, mid + 1 + c.j), Plain(d.arr, Placed)];
      CountKindConcat(c.steps, recorded, kd);
      assert recorded[1..] == [Plain(d.arr, Placed)] && recorded[1..][1..] == [];
      assert CountKind([Plain(d.arr, Placed)], kd) == if kd == Placed then 1 else 0;
    } else {
      CountKindConcat(c.steps, [Plain(d.arr, CopyRemainder)], kd);
      assert [Plain(d.arr, CopyRemainder)][1..] == [];
      assert left[c.i..] == [] || right[c.j..] == [];
      assert left[d.i..] == [] || right[d.j..] == [];
    }
  }

  /** An iteration's comparison pairs a position of the left half with a
      later one of the right half. */
  lemma StepPairs<T>(key: T -> int, left: seq<T>, right: seq<T>, start: int, mid: int, c: Cursor<T>)
    requires InMerge(left, right, start, c) && (c.i < |left| || c.j < |right|)
    requires mid + 1 == start + |left|
    requires PairsIn(Comparisons(c.steps), start, mid + |right|)
    ensures PairsIn(Comparisons(MergeStep(key, left, right, start, mid, c).steps), start, mid + |right|)
  {
    var d := MergeStep(key, left, right, start, mid, c);
    StepChoice(key, left, right, start, mid, c);
    if c.i < |left| && c.j < |right| {
      var recorded := [Comparing(c.arr, start + c.i, mid + 1 + c.j), Plain(d.arr, Placed)];
      ComparisonsConcat(c.steps, recorded);
      assert recorded[1..] == [Plain(d.arr, Placed)] && recorded[1..][1..] == [];
      assert Comparisons([Plain(d.arr, Placed)]) == [];
      assert Comparisons(recorded) == [[start + c.i, mid + 1 + c.j]];
      PairsInConcat(Comparisons(c.steps), Comparisons(recorded), start, mid + |right|);
    } else {
      ComparisonsConcat(c.steps, [Plain(d.arr, CopyRemainder)]);
      assert [Plain(d.arr, CopyRemainder)][1..] == [];
      assert Comparisons(c.steps + [Plain(d.arr, CopyRemainder)]) == Comparisons(c.steps);
    }
  }

  // The rest of merge's loops, by induction on the elements left to place

  /** The loops write the merge of what is left of the two copies to
      positions start + i + j onwards and touch nothing else. */
  lemma FromArr<T>(key: T -> int, left: seq<T>, right: seq<T>, start: int, mid: int, c: Cursor<T>)
    requires InMerge(left, right, start, c)
    ensures var k, e := start + c.i + c.j, start + |left| + |right|;
      MergeFrom(key, left, right, start, mid, c).arr == c.arr[..k] + Merged(key, left[c.i..], right[c.j..]) + c.arr[e..]
  {
    FromArrOf(key, left, right, start, mid, c);
    ArrFromMerged(key, left, right, start, c.arr, c.i, c.j);
  }

  /** The array the loops leave from position (i, j) on, without the steps
      they record. */
  ghost function ArrFrom<T>(key: T -> int, left: seq<T>, right: seq<T>, start: int, a: seq<T>, i: int, j: int): (t: seq<T>)
    requires 0 <= start && 0 <= i <= |left| && 0 <= j <= |right| && start + |left| + |right| <= |a|
    ensures |t| == |a|
    decreases |left| - i + |right| - j
  {
    var k := start + i + j;
    if i == |left| && j == |right| then a
    else if i < |left| && (j == |right| || key(left[i]) <= key(right[j])) then
      ArrFrom(key, left, right, start, a[k := left[i]], i + 1, j)
    else
      ArrFrom(key, left, right, start, a[k := right[j]], i, j + 1)
  }

  /** The traced loops leave exactly that array. */
  lemma {:induction false} FromArrOf<T>(key: T -> int, left: seq<T>, right: seq<T>, start: int, mid: int, c: Cursor<T>)
    requires InMerge(left, right, start, c)
    ensures MergeFrom(key, left, right, start, mid, c).arr == ArrFrom(key, left, right, start, c.arr, c.i, c.j)
    decreases |left| - c.i + |right| - c.j
  {
    if c.i < |left| || c.j < |right| {
      var d := MergeStep(key, left, right, start, mid, c);
      FromStep(key, left, right, start, mid, c);
      FromArrOf(key, left, right, start, mid, d);
      assert ArrFrom(key, left, right, start, c.arr, c.i, c.j) == ArrFrom(key, left, right, start, d.arr, d.i, d.j);
    }
  }

  /** That array is the written prefix, the reference merge of what is left,
      and the untouched rest. */
  lemma {:induction false} ArrFromMerged<T>(key: T -> int, left: seq<T>, right: seq<T>, start: int, a: seq<T>, i: int, j: int)
    requires 0 <= start && 0 <= i <= |left| && 0 <= j <= |right| && start + |left| + |right| <= |a|
    ensures var k, e := start + i + j, start + |left| + |right|;
      ArrFrom(key, left, right, start, a, i, j) == a[..k] + Merged(key, left[i..], right[j..]) + a[e..]
    decreases |left| - i + |right| - j
  {
    var k, e := start + i + j, start + |left| + |right|;
    if i == |left| && j == |right| {
      assert ArrFrom(key, left, right, start, a, i, j) == a;
      assert Merged(key, left[i..], right[j..]) == [] by {
        assert left[i..] == [] && right[j..] == [];
      }
      assert a[..k] + [] + a[e..] == a by {
        assert k == e;
        assert a[..e] + a[e..] == a;
      }
    } else if i < |left| && (j == |right| || key(left[i]) <= key(right[j])) {
      var t := a[k := left[i]];
      assert ArrFrom(key, left, right, start, a, i, j) == ArrFrom(key, left, right, start, t, i + 1, j);
      ArrFromMerged(key, left, right, start, t, i + 1, j);
      TakeLeft(key, left, right, a, t, i, j, i + 1, k, start + (i + 1) + j, e);
    } else {
      var t := a[k := right[j]];
      assert ArrFrom(key, left, right, start, a, i, j) == ArrFrom(key, left, right, start, t, i, j + 1);
      ArrFromMerged(key, left, right, start, t, i, j + 1);
      TakeRight(key, left, right, a, t, i, j, j + 1, k, start + i + (j + 1), e);
    }
  }

  /** The loops record one comparison and one placement per comparison of
      the reference merge, and one copy step per element placed without one. */
  lemma {:induction false} FromKinds<T>(key: T -> int, left: seq<T>, right: seq<T>, start: int, mid: int,
                                        c: Cursor<T>, kd: StepKind)
    requires InMerge(left, right, start, c)
    ensures var r := MergeFrom(key, left, right, start, mid, c);
      var n, rest := MergeCompares(key, left[c.i..], right[c.j..]), |left| - c.i + |right| - c.j;
      && n <= rest
      && |r.steps| == |c.steps| + n + rest
      && CountKind(r.steps, kd) == CountKind(c.steps, kd) + (if kd == Compare || kd == Placed then n else 0)
           + (if kd == CopyRemainder then rest - n else 0)
    decreases |left| - c.i + |right| - c.j
  {
    if c.i < |left| || c.j < |right| {
      StepKinds(key, left, right, start, mid, c, kd);
      FromKinds(key, left, right, start, mid, MergeStep(key, left, right, start, mid, c), kd);
    } else {
      assert left[c.i..] == [];
    }
  }

  /** Every comparison the loops record lies inside the segment. */
  lemma {:induction false} FromPairs<T>(key: T -> int, left: seq<T>, right: seq<T>, start: int, mid: int, c: Cursor<T>)
    requires InMerge(left, right, start, c) && mid + 1 == start + |left|
    requires PairsIn(Comparisons(c.steps), start, mid + |right|)
    ensures PairsIn(Comparisons(MergeFrom(key, left, right, start, mid, c).steps), start, mid + |right|)
    decreases |left| - c.i + |right| - c.j
  {
    if c.i < |left| || c.j < |right| {
      StepPairs(key, left, right, start, mid, c);
      FromPairs(key, left, right, start, mid, MergeStep(key, left, right, start, mid, c));
    }
  }

  /** The loops only append to the steps recorded before them. */
  lemma {:induction false} FromPrefix<T>(key: T -> int, left: seq<T>, right: seq<T>, start: int, mid: int, c: Cursor<T>)
    requires InMerge(left, right, start, c)
    ensures var r := MergeFrom(key, left, right, start, mid, c);
      |c.steps| <= |r.steps| && r.steps[..|c.steps|] == c.steps
    decreases |left| - c.i + |right| - c.j
  {
    if c.i < |left| || c.j < |right| {
      var d := MergeStep(key, left, right, start, mid, c);
      FromPrefix(key, left, right, start, mid, d);
      assert d.steps[..|c.steps|] == c.steps;
    }
  }

  // ---------------------------------------------------------------------
  // merge

  /** merge's effect on the array: [start, end] becomes the stable merge of
      the two halves it held, nothing outside changes, and the whole array
      stays a permutation. */
  lemma MergeResult<T>(v: Visualiser, key: T -> int, s: seq<T>, start: int, mid: int, end: int)
    requires 0 <= start <= mid < end < |s|
    ensures var r := MergeOf(v, key, s, start, mid, end);
      && r.arr[start..end + 1] == Merged(key, s[start..mid + 1], s[mid + 1..end + 1])
      && SameOutside(r.arr, s, start, end + 1)
      && multiset(r.arr) == multiset(s)
  {
    MergeOfArr(v, key, s, start, mid, end);
    MergedSplice(key, s, MergeOf(v, key, s, start, mid, end).arr, start, mid, end);
  }

  /** The same facts about any array that holds the reference merge in
      place of the two halves. */
  lemma MergedSplice<T>(key: T -> int, s: seq<T>, arr: seq<T>, start: int, mid: int, end: int)
    requires 0 <= start <= mid < end < |s|
    requires arr == s[..start] + Merged(key, s[start..mid + 1], s[mid + 1..end + 1]) + s[end + 1..]
    ensures arr[start..end + 1] == Merged(key, s[start..mid + 1], s[mid + 1..end + 1])
    ensures SameOutside(arr, s, start, end + 1) && multiset(arr) == multiset(s)
  {
    var l, rt := s[start..mid + 1], s[mid + 1..end + 1];
    var m := Merged(key, l, rt);
    assert multiset(m) == multiset(s[start..end + 1]) && |m| == end + 1 - start by {
      MergedPerm(key, l, rt);
      assert s[start..end + 1] == l + rt;
    }
    Spliced(s, arr, m, start, end + 1);
  }

  /** The array merge leaves, in one piece. */
  lemma MergeOfArr<T>(v: Visualiser, key: T -> int, s: seq<T>, start: int, mid: int, end: int)
    requires 0 <= start <= mid < end < |s|
    ensures MergeOf(v, key, s, start, mid, end).arr
              == s[..start] + Merged(key, s[start..mid + 1], s[mid + 1..end + 1]) + s[end + 1..]
  {
    var l, rt := s[start..mid + 1], s[mid + 1..end + 1];
    FromArr(key, l, rt, start, mid, Cursor(s, 0, 0, [MergingStep(v, s, start, mid, end)]));
    assert l[0..] == l && rt[0..] == rt;
  }

  /** merge's postcondition: sorted halves give a sorted segment. */
  lemma MergeSorts<T>(v: Visualiser, key: T -> int, s: seq<T>, start: int, mid: int, end: int)
    requires 0 <= start <= mid < end < |s|
    requires SortedRange(key, s, start, mid + 1) && SortedRange(key, s, mid + 1, end + 1)
    ensures SortedRange(key, MergeOf(v, key, s, start, mid, end).arr, start, end + 1)
  {
    var l, rt := s[start..mid + 1], s[mid + 1..end + 1];
    var arr := MergeOf(v, key, s, start, mid, end).arr;
    assert arr[start..end + 1] == Merged(key, l, rt) by {
      MergeResult(v, key, s, start, mid, end);
    }
    assert SortedBy(key, Merged(key, l, rt)) by {
      SortedRangeSlice(key, s, start, mid + 1);
      SortedRangeSlice(key, s, mid + 1, end + 1);
      MergedSorted(key, l, rt);
    }
    SortedRangeSlice(key, arr, start, end + 1);
  }

  /** merge's steps: the merging step first, then as many comparisons as the
      reference merge makes, each followed by a placement, then one copy
      step per remaining element: end - start + 1 writes in all. Every
      comparison is a pair x < y of positions inside [start, end]. */
  lemma MergeSteps<T>(v: Visualiser, key: T -> int, s: seq<T>, start: int, mid: int, end: int, kd: StepKind)
    requires 0 <= start <= mid < end < |s|
    ensures var r := MergeOf(v, key, s, start, mid, end);
      var n := MergeCompares(key, s[start..mid + 1], s[mid + 1..end + 1]);
      && |r.steps| == 1 + n + (end - start + 1)
      && r.steps[0] == MergingStep(v, s, start, mid, end)
      && CountKind(r.steps, Placed) + CountKind(r.steps, CopyRemainder) == end - start + 1
      && CountKind(r.steps, kd) == (if kd == MergeStart then 1 else 0)
           + (if kd == Compare || kd == Placed then n else 0)
           + (if kd == CopyRemainder then end - start + 1 - n else 0)
      && PairsIn(Comparisons(r.steps), start, end)
  {
    var l, rt := s[start..mid + 1], s[mid + 1..end + 1];
    var c := Cursor(s, 0, 0, [MergingStep(v, s, start, mid, end)]);
    assert MergeOf(v, key, s, start, mid, end).steps == MergeFrom(key, l, rt, start, mid, c).steps;
    FromFirst(key, l, rt, start, mid, c, kd);
  }

  /** The same facts for a merge started from any cursor at the heads of
      both copies whose steps hold just the merge-start step. */
  lemma FromFirst<T>(key: T -> int, l: seq<T>, rt: seq<T>, start: int, mid: int, c: Cursor<T>, kd: StepKind)
    requires InMerge(l, rt, start, c) && mid + 1 == start + |l| && |rt| > 0
    requires c.i == 0 && c.j == 0 && |c.steps| == 1 && c.steps[0].kind == MergeStart && c.steps[0].comparing == None
    ensures var r := MergeFrom(key, l, rt, start, mid, c);
      var n, end := MergeCompares(key, l, rt), mid + |rt|;
      && |r.steps| == 1 + n + (end - start + 1)
      && r.steps[0] == c.steps[0]
      && CountKind(r.steps, Placed) + CountKind(r.steps, CopyRemainder) == end - start + 1
      && CountKind(r.steps, kd) == (if kd == MergeStart then 1 else 0)
           + (if kd == Compare || kd == Placed then n else 0)
           + (if kd == CopyRemainder then end - start + 1 - n else 0)
      && PairsIn(Comparisons(r.steps), start, end)
  {
    var r := MergeFrom(key, l, rt, start, mid, c);
    var first := c.steps[0];
    assert c.steps == [first];
    assert l[c.i..] == l && rt[c.j..] == rt;
    assert |r.steps| == 1 + MergeCompares(key, l, rt) + |l| + |rt|
      && CountKind(r.steps, kd) == CountKind(c.steps, kd) + (if kd == Compare || kd == Placed then MergeCompares(key, l, rt) else 0)
           + (if kd == CopyRemainder then |l| + |rt| - MergeCompares(key, l, rt) else 0) by {
      FromKinds(key, l, rt, start, mid, c, kd);
    }
    assert CountKind(c.steps, kd) == (if kd == MergeStart then 1 else 0) by {
      OneStep(first, kd, multiset{});
    }
    assert CountKind(r.steps, Placed) + CountKind(r.steps, CopyRemainder) == |l| + |rt| by {
      OneStep(first, Placed, multiset{});
      OneStep(first, CopyRemainder, multiset{});
      FromKinds(key, l, rt, start, mid, c, Placed);
      FromKinds(key, l, rt, start, mid, c, CopyRemainder);
    }
    assert r.steps[0] == first by {
      FromPrefix(key, l, rt, start, mid, c);
    }
    assert PairsIn(Comparisons(r.steps), start, mid + |rt|) by {
      OneStep(first, MergeStart, multiset{});
      FromPairs(key, l, rt, start, mid, c);
    }
  }
  // ---------------------------------------------------------------------
  // mergeSortWithSteps

  /** mergeSortWithSteps on [start, end]: nothing for fewer than two
      elements; otherwise the dividing step, the two halves, and the merge. */
  function MergeSortTrace<T>(v: Visualiser, key: T -> int, s: seq<T>, start: int, end: int): (r: Run<T>)
    requires 0 <= start && end < |s|
    ensures |r.arr| == |s|
    decreases end - start, 1
  {
    if start >= end then Run(s, []) else MergeLevel(v, key, s, start, end)
  }

  /** mergeSortWithSteps on a range of at least two elements, a separate
      member of the recursion so that unfolding MergeSortTrace stops here. */
  function MergeLevel<T>(v: Visualiser, key: T -> int, s: seq<T>, start: int, end: int): (r: Run<T>)
    requires 0 <= start < end < |s|
    ensures |r.arr| == |s|
    decreases end - start, 0
  {
    var mid := (start + end) / 2;
    var left := MergeSortTrace(v, key, s, start, mid);
    var right := MergeSortTrace(v, key, left.arr, mid + 1, end);
    var m := MergeOf(v, key, right.arr, start, mid, end);
    Run(m.arr, [Plain(s, Divide)] + left.steps + right.steps + m.steps)
  }

  /** Merge sort on [start, end] changes nothing outside it and permutes it. */
  lemma {:induction false} MergeSortFrame<T>(v: Visualiser, key: T -> int, s: seq<T>, start: int, end: int, r: Run<T>)
    requires 0 <= start && end < |s| && r == MergeSortTrace(v, key, s, start, end)
    ensures SameOutside(r.arr, s, start, end + 1)
    ensures multiset(r.arr) == multiset(s)
    decreases end - start
  {
    if start < end {
      var mid := (start + end) / 2;
      var left := MergeSortTrace(v, key, s, start, mid);
      var right := MergeSortTrace(v, key, left.arr, mid + 1, end);
      assert SameOutside(left.arr, s, start, mid + 1) && multiset(left.arr) == multiset(s) by {
        MergeSortFrame(v, key, s, start, mid, left);
      }
      assert SameOutside(right.arr, left.arr, mid + 1, end + 1) && multiset(right.arr) == multiset(left.arr) by {
        MergeSortFrame(v, key, left.arr, mid + 1, end, right);
      }
      var arr := MergeOf(v, key, right.arr, start, mid, end).arr;
      assert r.arr == arr by {
        MergeLevelParts(v, key, s, start, end, left, right, MergeOf(v, key, right.arr, start, mid, end));
      }
      assert SameOutside(arr, right.arr, start, end + 1) && multiset(arr) == multiset(right.arr) by {
        MergeResult(v, key, right.arr, start, mid, end);
      }
      FrameLevel(s, left.arr, right.arr, arr, start, mid, end);
    }
  }

  /** The two halves and the merge each stay inside [start, end] and
      permute, so the whole level does. */
  lemma FrameLevel<T>(s: seq<T>, la: seq<T>, ra: seq<T>, arr: seq<T>, start: int, mid: int, end: int)
    requires start <= mid <= end
    requires SameOutside(la, s, start, mid + 1) && multiset(la) == multiset(s)
    requires SameOutside(ra, la, mid + 1, end + 1) && multiset(ra) == multiset(la)
    requires SameOutside(arr, ra, start, end + 1) && multiset(arr) == multiset(ra)
    ensures SameOutside(arr, s, start, end + 1) && multiset(arr) == multiset(s)
  {
    SameOutsideTrans(ra, la, s, mid + 1, end + 1, start, mid + 1, start, end + 1);
    SameOutsideTrans(arr, ra, s, start, end + 1, start, end + 1, start, end + 1);
  }

  /** mergeSortWithSteps leaves [start, end] in non-decreasing key order. */
  lemma {:induction false} MergeSortSorted<T>(v: Visualiser, key: T -> int, s: seq<T>, start: int, end: int, r: Run<T>)
    requires 0 <= start && end < |s| && r == MergeSortTrace(v, key, s, start, end)
    ensures SortedRange(key, r.arr, start, end + 1)
    decreases end - start
  {
    if start < end {
      var mid := (start + end) / 2;
      var left := MergeSortTrace(v, key, s, start, mid);
      var right := MergeSortTrace(v, key, left.arr, mid + 1, end);
      assert r.arr == MergeOf(v, key, right.arr, start, mid, end).arr by {
        MergeLevelParts(v, key, s, start, end, left, right, MergeOf(v, key, right.arr, start, mid, end));
      }
      MergeSortSorted(v, key, s, start, mid, left);
      MergeSortSorted(v, key, left.arr, mid + 1, end, right);
      assert SameOutside(right.arr, left.arr, mid + 1, end + 1) by {
        MergeSortFrame(v, key, left.arr, mid + 1, end, right);
      }
      SortedOutside(key, left.arr, right.arr, mid + 1, end + 1, start, mid + 1);
      MergeSorts(v, key, right.arr, start, mid, end);
    }
  }

  /** Sortedness of a block is kept by changes outside the block. */
  lemma SortedOutside<T>(key: T -> int, t: seq<T>, u: seq<T>, x: int, y: int, lo: int, hi: int)
    requires SameOutside(u, t, x, y) && (hi <= x || y <= lo)
    requires SortedRange(key, t, lo, hi)
    ensures SortedRange(key, u, lo, hi)
  {
  }

  /** Merge sort is stable: for every key, the elements of [start, end]
      with that key keep their relative order. */
  lemma {:induction false} MergeSortStable<T>(v: Visualiser, key: T -> int, s: seq<T>, start: int, end: int,
                                              r: Run<T>, x: int)
    requires 0 <= start && end < |s| && r == MergeSortTrace(v, key, s, start, end)
    ensures start <= end + 1 ==> WithKey(key, r.arr[start..end + 1], x) == WithKey(key, s[start..end + 1], x)
    decreases end - start
  {
    if start < end {
      var mid := (start + end) / 2;
      var left := MergeSortTrace(v, key, s, start, mid);
      var right := MergeSortTrace(v, key, left.arr, mid + 1, end);
      var m := MergeOf(v, key, right.arr, start, mid, end).arr;
      assert WithKey(key, m[start..end + 1], x) == WithKey(key, s[start..end + 1], x) by {
        MergeSortStable(v, key, s, start, mid, left, x);
        MergeSortStable(v, key, left.arr, mid + 1, end, right, x);
        StableLevel(v, key, s, start, mid, end, left, right, x);
      }
      assert r.arr == m by {
        MergeLevelParts(v, key, s, start, end, left, right, MergeOf(v, key, right.arr, start, mid, end));
      }
    } else if start == end {
      assert r.arr == s;
    }
  }

  /** One level of MergeSortStable: the halves the recursion leaves are
      what the merge sees, and the merge keeps each key's order. */
  lemma StableLevel<T>(v: Visualiser, key: T -> int, s: seq<T>, start: int, mid: int, end: int,
                       left: Run<T>, right: Run<T>, x: int)
    requires 0 <= start <= mid < end < |s| && mid == (start + end) / 2
    requires left == MergeSortTrace(v, key, s, start, mid)
    requires right == MergeSortTrace(v, key, left.arr, mid + 1, end)
    requires WithKey(key, left.arr[start..mid + 1], x) == WithKey(key, s[start..mid + 1], x)
    requires WithKey(key, right.arr[mid + 1..end + 1], x) == WithKey(key, left.arr[mid + 1..end + 1], x)
    ensures WithKey(key, MergeOf(v, key, right.arr, start, mid, end).arr[start..end + 1], x)
              == WithKey(key, s[start..end + 1], x)
  {
    var l, rt := right.arr[start..mid + 1], right.arr[mid + 1..end + 1];
    HalvesSeen(v, key, s, start, mid, end, left, right);
    var arr := MergeOf(v, key, right.arr, start, mid, end).arr;
    assert arr[start..end + 1] == Merged(key, l, rt) by {
      MergeResult(v, key, right.arr, start, mid, end);
    }
    assert WithKey(key, Merged(key, l, rt), x) == WithKey(key, l, x) + WithKey(key, rt, x) by {
      MergedStable(key, l, rt, x);
    }
    StableJoin(key, s, Merged(key, l, rt), l, rt, start, mid, end, x);
  }

  /** What merge finds in the two halves after the recursive calls: the left
      half as the left call left it, sorted, and the right half's input as
      it was before either call. */
  lemma HalvesSeen<T>(v: Visualiser, key: T -> int, s: seq<T>, start: int, mid: int, end: int,
                      left: Run<T>, right: Run<T>)
    requires 0 <= start <= mid < end < |s|
    requires left == MergeSortTrace(v, key, s, start, mid)
    requires right == MergeSortTrace(v, key, left.arr, mid + 1, end)
    ensures right.arr[start..mid + 1] == left.arr[start..mid + 1]
    ensures left.arr[mid + 1..end + 1] == s[mid + 1..end + 1]
    ensures SortedBy(key, right.arr[start..mid + 1])
  {
    MergeSortFrame(v, key, s, start, mid, left);
    MergeSortFrame(v, key, left.arr, mid + 1, end, right);
    SliceOutside(left.arr, s, start, mid + 1, mid + 1, end + 1);
    SliceOutside(right.arr, left.arr, mid + 1, end + 1, start, mid + 1);
    MergeSortSorted(v, key, s, start, mid, left);
    SortedRangeSlice(key, left.arr, start, mid + 1);
  }

  /** A merge m that keeps each half's order per key, of halves that keep
      s's order per key, keeps s's order per key for the whole segment. */
  lemma StableJoin<T>(key: T -> int, s: seq<T>, m: seq<T>, l: seq<T>, rt: seq<T>,
                      start: int, mid: int, end: int, x: int)
    requires 0 <= start <= mid < end < |s|
    requires WithKey(key, m, x) == WithKey(key, l, x) + WithKey(key, rt, x)
    requires WithKey(key, l, x) == WithKey(key, s[start..mid + 1], x)
    requires WithKey(key, rt, x) == WithKey(key, s[mid + 1..end + 1], x)
    ensures WithKey(key, m, x) == WithKey(key, s[start..end + 1], x)
  {
    assert s[start..end + 1] == s[start..mid + 1] + s[mid + 1..end + 1];
    WithKeyConcat(key, s[start..mid + 1], s[mid + 1..end + 1], x);
  }

  /** Every comparison merge sort records pairs two positions of [start, end]. */
  lemma {:induction false} MergeSortCompares<T>(v: Visualiser, key: T -> int, s: seq<T>, start: int, end: int, r: Run<T>)
    requires 0 <= start && end < |s| && r == MergeSortTrace(v, key, s, start, end)
    ensures PairsIn(Comparisons(r.steps), start, end)
    decreases end - start
  {
    if start < end {
      var mid := (start + end) / 2;
      var left := MergeSortTrace(v, key, s, start, mid);
      var right := MergeSortTrace(v, key, left.arr, mid + 1, end);
      var ms := MergeOf(v, key, right.arr, start, mid, end).steps;
      assert r.steps == [Plain(s, Divide)] + left.steps + right.steps + ms by {
        MergeLevelParts(v, key, s, start, end, left, right, MergeOf(v, key, right.arr, start, mid, end));
      }
      MergeSortCompares(v, key, s, start, mid, left);
      MergeSortCompares(v, key, left.arr, mid + 1, end, right);
      PairsInWiden(Comparisons(left.steps), start, mid, start, end);
      PairsInWiden(Comparisons(right.steps), mid + 1, end, start, end);
      assert PairsIn(Comparisons(ms), start, end) by {
        MergeSteps(v, key, right.arr, start, mid, end, Compare);
      }
      PairsOfLevel(Plain(s, Divide), left.steps, right.steps, ms, start, end);
    }
  }

  /** PairsIn over the four parts of one merge sort level. */
  lemma PairsOfLevel<T>(d: Step<T>, ls: seq<Step<T>>, rs: seq<Step<T>>, ms: seq<Step<T>>, lo: int, hi: int)
    requires d.comparing.None?
    requires PairsIn(Comparisons(ls), lo, hi) && PairsIn(Comparisons(rs), lo, hi) && PairsIn(Comparisons(ms), lo, hi)
    ensures PairsIn(Comparisons([d] + ls + rs + ms), lo, hi)
  {
    var a1 := [d] + ls;
    var a2 := a1 + rs;
    ComparisonsConcat([d], ls);
    ComparisonsConcat(a1, rs);
    ComparisonsConcat(a2, ms);
    assert [d][1..] == [];
    assert Comparisons([d]) == [];
    assert Comparisons(a1) == Comparisons(ls);
    PairsInConcat(Comparisons(ls), Comparisons(rs), lo, hi);
    PairsInConcat(Comparisons(a2), Comparisons(ms), lo, hi);
  }

  /** A segment of n >= 1 elements is split n - 1 times and merged n - 1 times. */
  lemma {:induction false} MergeSortLevels<T>(v: Visualiser, key: T -> int, s: seq<T>, start: int, end: int,
                                              r: Run<T>, kd: StepKind)
    requires 0 <= start && end < |s| && r == MergeSortTrace(v, key, s, start, end)
    requires kd == Divide || kd == MergeStart
    ensures CountKind(r.steps, kd) == (if start < end then end - start else 0)
    decreases end - start
  {
    if start < end {
      var mid := (start + end) / 2;
      var left := MergeSortTrace(v, key, s, start, mid);
      var right := MergeSortTrace(v, key, left.arr, mid + 1, end);
      var ms := MergeOf(v, key, right.arr, start, mid, end).steps;
      assert r.steps == [Plain(s, Divide)] + left.steps + right.steps + ms by {
        MergeLevelParts(v, key, s, start, end, left, right, MergeOf(v, key, right.arr, start, mid, end));
      }
      MergeSortLevels(v, key, s, start, mid, left, kd);
      MergeSortLevels(v, key, left.arr, mid + 1, end, right, kd);
      assert CountKind(ms, kd) == (if kd == MergeStart then 1 else 0) by {
        MergeSteps(v, key, right.arr, start, mid, end, kd);
      }
      CountOfLevel(Plain(s, Divide), left.steps, right.steps, ms, kd);
    } else {
      assert r.steps == [];
    }
  }

  /** CountKind over the four parts of one merge sort level. */
  lemma CountOfLevel<T>(d: Step<T>, ls: seq<Step<T>>, rs: seq<Step<T>>, ms: seq<Step<T>>, kd: StepKind)
    ensures CountKind([d] + ls + rs + ms, kd)
              == (if d.kind == kd then 1 else 0) + CountKind(ls, kd) + CountKind(rs, kd) + CountKind(ms, kd)
  {
    CountKindConcat([d], ls, kd);
    CountKindConcat([d] + ls, rs, kd);
    CountKindConcat([d] + ls + rs, ms, kd);
    assert [d][1..] == [];
  }

  // ---------------------------------------------------------------------
  // generateMergeSortSteps

  /** The whole trace for input data: the start step, mergeSortWithSteps on
      [0, n - 1], and the completion step over the sorted copy. */
  function MergeSortSteps<T>(v: Visualiser, key: T -> int, data: seq<T>): seq<Step<T>>
  {
    var r := MergeSortTrace(v, key, data, 0, |data| - 1);
    [Plain(data, Start)] + r.steps + [Finished(r.arr)]
  }

  /** The trace opens on the input and closes on a sorted permutation of it
      with every index marked sorted; inputs of at most one element give
      just these two steps. */
  lemma MergeSortEnds<T>(v: Visualiser, key: T -> int, data: seq<T>)
    ensures var ss := MergeSortSteps(v, key, data);
      && |ss| >= 2
      && ss[0] == Plain(data, Start)
      && ss[|ss| - 1].kind == Complete
      && ss[|ss| - 1].sorted == Some(Range(0, |data|))
      && SortedBy(key, ss[|ss| - 1].snapshot)
      && multiset(ss[|ss| - 1].snapshot) == multiset(data)
      && (|data| <= 1 <==> |ss| == 2)
  {
    var r := MergeSortTrace(v, key, data, 0, |data| - 1);
    MergeSortFrame(v, key, data, 0, |data| - 1, r);
    MergeSortSorted(v, key, data, 0, |data| - 1, r);
    SortedRangeSlice(key, r.arr, 0, |r.arr|);
    assert r.arr[0..|r.arr|] == r.arr;
    if |data| > 1 {
      assert r == MergeLevel(v, key, data, 0, |data| - 1);
    }
  }

  /** The final array keeps, for every key, the input's order among the
      elements with that key. */
  lemma MergeSortKeepsOrder<T>(v: Visualiser, key: T -> int, data: seq<T>, x: int)
    ensures var ss := MergeSortSteps(v, key, data);
      WithKey(key, ss[|ss| - 1].snapshot, x) == WithKey(key, data, x)
  {
    var r := MergeSortTrace(v, key, data, 0, |data| - 1);
    MergeSortStable(v, key, data, 0, |data| - 1, r, x);
    assert r.arr[0..|data|] == r.arr && data[0..|data|] == data;
  }

  /** Every comparison of the trace is a pair x < y of indices of the input. */
  lemma MergeSortCompareRange<T>(v: Visualiser, key: T -> int, data: seq<T>)
    ensures PairsIn(Comparisons(MergeSortSteps(v, key, data)), 0, |data| - 1)
  {
    var r := MergeSortTrace(v, key, data, 0, |data| - 1);
    MergeSortCompares(v, key, data, 0, |data| - 1, r);
    EndsComparisons(Plain(data, Start), r.steps, Finished(r.arr));
  }

  /** For n >= 1 elements the trace splits a segment n - 1 times and merges
      two halves n - 1 times. */
  lemma MergeSortSplits<T>(v: Visualiser, key: T -> int, data: seq<T>, kd: StepKind)
    requires kd == Divide || kd == MergeStart
    ensures CountKind(MergeSortSteps(v, key, data), kd) == (if |data| > 0 then |data| - 1 else 0)
  {
    var r := MergeSortTrace(v, key, data, 0, |data| - 1);
    EndsCount(Plain(data, Start), r.steps, Finished(r.arr), kd);
    MergeSortLevels(v, key, data, 0, |data| - 1, r, kd);
  }

  // ---------------------------------------------------------------------
  // The in-place generator

  /** The loops' state advances by one iteration at a time. */
  lemma FromStep<T>(key: T -> int, left: seq<T>, right: seq<T>, start: int, mid: int, c: Cursor<T>)
    requires InMerge(left, right, start, c) && (c.i < |left| || c.j < |right|)
    ensures MergeFrom(key, left, right, start, mid, c)
              == MergeFrom(key, left, right, start, mid, MergeStep(key, left, right, start, mid, c))
  {
    assert MergeFrom(key, left, right, start, mid, c) == MergeOn(key, left, right, start, mid, c);
  }

  /** One iteration of merge's first loop on the tracer: record the
      comparison of the two heads, write the smaller (the left one on a
      tie) and record the placement. */
  method PlaceSmaller<T>(t: Tracer<T>, key: T -> int, left: seq<T>, right: seq<T>, start: int, mid: int,
                         i: int, j: int, ghost base: seq<Step<T>>, ghost ps: seq<Step<T>>)
    returns (i': int, j': int, ghost ps': seq<Step<T>>)
    requires InMerge(left, right, start, Cursor(t.a[..], i, j, ps)) && i < |left| && j < |right|
    requires t.steps == base + ps
    modifies t, t.a
    ensures Cursor(t.a[..], i', j', ps') == MergeStep(key, left, right, start, mid, Cursor(old(t.a[..]), i, j, ps))
    ensures t.steps == base + ps'
  {
    var compare := Comparing(t.a[..], start + i, mid + 1 + j);
    t.Push(compare);
    if key(left[i]) <= key(right[j]) {
      t.Write(start + i + j, left[i]);
      i', j' := i + 1, j;
    } else {
      t.Write(start + i + j, right[j]);
      i', j' := i, j + 1;
    }
    t.Push(Plain(t.a[..], Placed));
    ps' := ps + [compare, Plain(t.a[..], Placed)];
  }

  /** One iteration of merge's last two loops on the tracer: write the next
      element of the copy that still has some (x) and record the copy. */
  method CopyNext<T>(t: Tracer<T>, key: T -> int, left: seq<T>, right: seq<T>, start: int, mid: int,
                     i: int, j: int, ghost base: seq<Step<T>>, ghost ps: seq<Step<T>>)
    returns (i': int, j': int, ghost ps': seq<Step<T>>)
    requires InMerge(left, right, start, Cursor(t.a[..], i, j, ps))
    requires (i < |left| && j == |right|) || (i == |left| && j < |right|)
    requires t.steps == base + ps
    modifies t, t.a
    ensures Cursor(t.a[..], i', j', ps') == MergeStep(key, left, right, start, mid, Cursor(old(t.a[..]), i, j, ps))
    ensures t.steps == base + ps'
  {
    if i < |left| {
      t.Write(start + i + j, left[i]);
      i', j' := i + 1, j;
    } else {
      t.Write(start + i + j, right[j]);
      i', j' := i, j + 1;
    }
    t.Push(Plain(t.a[..], CopyRemainder));
    ps' := ps + [Plain(t.a[..], CopyRemainder)];
  }

  /** merge(array, start, mid, end) on the tracer's working copy: the three
      loops of the source, recording exactly the steps MergeOf describes. */
  method Merge<T>(t: Tracer<T>, v: Visualiser, key: T -> int, start: int, mid: int, end: int)
    requires 0 <= start <= mid < end < t.a.Length
    modifies t, t.a
    ensures var r := MergeOf(v, key, old(t.a[..]), start, mid, end);
      t.a[..] == r.arr && t.steps == old(t.steps) + r.steps
  {
    ghost var base := t.steps;
    var left := t.a[start..mid + 1];
    var right := t.a[mid + 1..end + 1];
    var merging := MergingStep(v, t.a[..], start, mid, end);
    ghost var goal := MergeFrom(key, left, right, start, mid, Cursor(t.a[..], 0, 0, [merging]));
    t.Push(merging);
    ghost var ps := [merging];
    var i, j := 0, 0;
    while i < |left| && j < |right|
      invariant InMerge(left, right, start, Cursor(t.a[..], i, j, ps))
      invariant MergeFrom(key, left, right, start, mid, Cursor(t.a[..], i, j, ps)) == goal
      invariant t.steps == base + ps
      decreases |left| - i + |right| - j
    {
      FromStep(key, left, right, start, mid, Cursor(t.a[..], i, j, ps));
      i, j, ps := PlaceSmaller(t, key, left, right, start, mid, i, j, base, ps);
    }
    while i < |left|
      invariant InMerge(left, right, start, Cursor(t.a[..], i, j, ps)) && (i == |left| || j == |right|)
      invariant MergeFrom(key, left, right, start, mid, Cursor(t.a[..], i, j, ps)) == goal
      invariant t.steps == base + ps
      decreases |left| - i
    {
      FromStep(key, left, right, start, mid, Cursor(t.a[..], i, j, ps));
      i, j, ps := CopyNext(t, key, left, right, start, mid, i, j, base, ps);
    }
    while j < |right|
      invariant InMerge(left, right, start, Cursor(t.a[..], i, j, ps)) && i == |left|
      invariant MergeFrom(key, left, right, start, mid, Cursor(t.a[..], i, j, ps)) == goal
      invariant t.steps == base + ps
      decreases |right| - j
    {
      FromStep(key, left, right, start, mid, Cursor(t.a[..], i, j, ps));
      i, j, ps := CopyNext(t, key, left, right, start, mid, i, j, base, ps);
    }
  }

  /** mergeSortWithSteps(array, start, end) on the tracer: the steps and the
      final array are exactly MergeSortTrace's. */
  method MergeSortRec<T>(t: Tracer<T>, v: Visualiser, key: T -> int, start: int, end: int)
    requires 0 <= start && end < t.a.Length
    modifies t, t.a
    ensures var r := MergeSortTrace(v, key, old(t.a[..]), start, end);
      t.a[..] == r.arr && t.steps == old(t.steps) + r.steps
    decreases end - start
  {
    if start >= end {
      assert MergeSortTrace(v, key, t.a[..], start, end) == Run(t.a[..], []);
      assert t.steps + [] == t.steps;
      return;
    }
    ghost var s0 := t.a[..];
    ghost var steps0 := t.steps;
    var mid := (start + end) / 2;
    t.Push(Plain(t.a[..], Divide));
    ghost var divided := t.steps;
    ghost var left := MergeSortTrace(v, key, s0, start, mid);
    MergeSortRec(t, v, key, start, mid);
    assert t.a[..] == left.arr && t.steps == divided + left.steps;
    ghost var right := MergeSortTrace(v, key, left.arr, mid + 1, end);
    MergeSortRec(t, v, key, mid + 1, end);
    assert t.a[..] == right.arr && t.steps == divided + left.steps + right.steps;
    ghost var m := MergeOf(v, key, right.arr, start, mid, end);
    Merge(t, v, key, start, mid, end);
    assert t.a[..] == m.arr && t.steps == divided + left.steps + right.steps + m.steps;
    MergeLevelParts(v, key, s0, start, end, left, right, m);
    assert t.steps == steps0 + ([Plain(s0, Divide)] + left.steps + right.steps + m.steps) by {
      AppendAssoc4(steps0, [Plain(s0, Divide)], left.steps, right.steps, m.steps);
    }
  }

  /** One level of mergeSortWithSteps, its parts named. */
  lemma MergeLevelParts<T>(v: Visualiser, key: T -> int, s: seq<T>, start: int, end: int, left: Run<T>, right: Run<T>, m: Run<T>)
    requires 0 <= start < end < |s|
    requires left == MergeSortTrace(v, key, s, start, (start + end) / 2)
    requires right == MergeSortTrace(v, key, left.arr, (start + end) / 2 + 1, end)
    requires m == MergeOf(v, key, right.arr, start, (start + end) / 2, end)
    ensures MergeSortTrace(v, key, s, start, end) == Run(m.arr, [Plain(s, Divide)] + left.steps + right.steps + m.steps)
  {
    assert MergeSortTrace(v, key, s, start, end) == MergeLevel(v, key, s, start, end);
  }

  /** generateMergeSortSteps(data.slice()): sorts a fresh copy, so the
      caller's data is untouched, and returns exactly MergeSortSteps. */
  method GenerateMergeSortSteps<T>(v: Visualiser, key: T -> int, data: seq<T>) returns (steps: seq<Step<T>>)
    ensures steps == MergeSortSteps(v, key, data)
  {
    var a := new T[|data|](k requires 0 <= k < |data| => data[k]);
    assert a[..] == data;
    var t := new Tracer(a);
    t.Push(Plain(a[..], Start));
    MergeSortRec(t, v, key, 0, a.Length - 1);
    t.Push(Finished(a[..]));
    steps := t.steps;
  }
}
