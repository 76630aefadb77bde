/** quickSortWithSteps and partition, as both visualisers write them: Lomuto
    partition of [start, end] around the last element, then the two sides
    sorted recursively, with a step recorded at every comparison, swap and
    pivot placement. Elements are compared by an integer key (a fish's price,
    a bar's own value).

    The recorded behaviour is given first as pure functions on the array
    contents (the loop state from position j on, the whole partition, the
    whole recursion), with its properties proved as lemmas; the in-place
    methods at the end are proved to produce exactly that behaviour. */
module QuickSort {
  import opened Common
  import opened Traces

  /** The state of partition's loop: the array, the boundary i (positions
      [start, i) hold the elements found below the pivot), and the steps
      recorded by this call so far. */
  datatype Scan<T> = Scan(arr: seq<T>, i: int, steps: seq<Step<T>>)

  /** One iteration of partition's loop at position j: record the comparison
      of j with end; when the element is below the pivot, swap it to the
      boundary and record the swap. The record visualiser records every
      such swap; the number visualiser only those with i != j. */
  function ScanStep<T>(v: Visualiser, key: T -> int, p: Scan<T>, j: int, end: int, pivot: int): (r: Scan<T>)
    requires 0 <= p.i <= j < end < |p.arr|
    ensures |r.arr| == |p.arr| && r.i == p.i + (if key(p.arr[j]) < pivot then 1 else 0)
  {
    var compare := Comparing(p.arr, j, end);
    if key(p.arr[j]) < pivot then
      var t := Swapped(p.arr, p.i, j);
      var recorded := if v == Records || p.i != j then [compare, Plain(t, Swap)] else [compare];
      Scan(t, p.i + 1, p.steps + recorded)
    else
      Scan(p.arr, p.i, p.steps + [compare])
  }

  /** partition from loop position j on: the remaining iterations, then the
      pivot swapped from end to the boundary and the placement recorded. */
  function PartitionFrom<T>(v: Visualiser, key: T -> int, p: Scan<T>, j: int, end: int, pivot: int): (r: Scan<T>)
    requires 0 <= p.i <= j <= end < |p.arr|
    ensures |r.arr| == |p.arr| && p.i <= r.i <= end
    decreases end - j
  {
    if j == end then
      var t := Swapped(p.arr, p.i, end);
      Scan(t, p.i, p.steps + [Plain(t, PlacePivot)])
    else
      PartitionFrom(v, key, ScanStep(v, key, p, j, end, pivot), j + 1, end, pivot)
  }

  /** partition(array, start, end): the loop from j = start with i = start
      around the key of the last element. */
  function PartitionOf<T>(v: Visualiser, key: T -> int, s: seq<T>, start: int, end: int): (r: Scan<T>)
    requires 0 <= start < end < |s|
    ensures |r.arr| == |s| && start <= r.i <= end
  {
    PartitionFrom(v, key, Scan(s, start, []), start, end, key(s[end]))
  }

  /** The comparisons the loop records from position j on: [j, end],
      [j + 1, end], ..., [end - 1, end]. */
  function ScanPairs(j: int, end: int): (r: seq<seq<int>>)
    requires j <= end
    ensures |r| == end - j && forall k :: 0 <= k < |r| ==> r[k] == [j + k, end]
  {
    seq(end - j, k => [j + k, end])
  }

  lemma ScanPairsCons(j: int, end: int)
    requires j < end
    ensures ScanPairs(j, end) == [[j, end]] + ScanPairs(j + 1, end)
  {
  }

  lemma {:induction false} ScanPairsIn(j: int, end: int)
    requires j <= end
    ensures PairsIn(ScanPairs(j, end), j, end)
    decreases end - j
  {
    if j < end {
      ScanPairsIn(j + 1, end);
      PairsInWiden(ScanPairs(j + 1, end), j + 1, end, j, end);
      ScanPairsCons(j, end);
    }
  }

  // ---------------------------------------------------------------------
  // One iteration of partition's loop, fact by fact

  lemma StepPerm<T>(v: Visualiser, key: T -> int, p: Scan<T>, j: int, end: int, pivot: int)
    requires 0 <= p.i <= j < end < |p.arr|
    ensures multiset(ScanStep(v, key, p, j, end, pivot).arr) == multiset(p.arr)
  {
    SwappedPerm(p.arr, p.i, j);
  }

  lemma StepFrame<T>(v: Visualiser, key: T -> int, p: Scan<T>, j: int, end: int, pivot: int)
    requires 0 <= p.i <= j < end < |p.arr|
    ensures SameOutside(ScanStep(v, key, p, j, end, pivot).arr, p.arr, p.i, j + 1)
  {
    SwappedFacts(p.arr, p.i, j);
  }

  lemma StepSplit<T>(v: Visualiser, key: T -> int, p: Scan<T>, j: int, end: int, pivot: int, start: int)
    requires 0 <= start <= p.i <= j < end < |p.arr|
    requires forall k :: start <= k < p.i ==> key(p.arr[k]) < pivot
    requires forall k :: p.i <= k < j ==> pivot <= key(p.arr[k])
    ensures var r := ScanStep(v, key, p, j, end, pivot);
      && (forall k :: start <= k < r.i ==> key(r.arr[k]) < pivot)
      && (forall k :: r.i <= k < j + 1 ==> pivot <= key(r.arr[k]))
  {
    SwappedFacts(p.arr, p.i, j);
  }

  lemma StepKinds<T>(v: Visualiser, key: T -> int, p: Scan<T>, j: int, end: int, pivot: int, k: StepKind)
    requires 0 <= p.i <= j < end < |p.arr|
    ensures var r := ScanStep(v, key, p, j, end, pivot);
      var swaps := if r.i == p.i || (v == Numbers && p.i == j) then 0 else 1;
      && |r.steps| == |p.steps| + 1 + swaps
      && CountKind(r.steps, k) == CountKind(p.steps, k)
           + (if k == Compare then 1 else 0) + (if k == Swap then swaps else 0)
  {
    var compare := Comparing(p.arr, j, end);
    if key(p.arr[j]) < pivot && (v == Records || p.i != j) {
      var swap := Plain(Swapped(p.arr, p.i, j), Swap);
      assert ScanStep(v, key, p, j, end, pivot).steps == p.steps + [compare, swap];
      CountKindConcat(p.steps, [compare, swap], k);
      assert [compare, swap][1..] == [swap];
      assert CountKind([swap], k) == if k == Swap then 1 else 0;
    } else {
      assert ScanStep(v, key, p, j, end, pivot).steps == p.steps + [compare];
      CountKindConcat(p.steps, [compare], k);
    }
  }

  lemma StepCompares<T>(v: Visualiser, key: T -> int, p: Scan<T>, j: int, end: int, pivot: int)
    requires 0 <= p.i <= j < end < |p.arr|
    ensures Comparisons(ScanStep(v, key, p, j, end, pivot).steps) == Comparisons(p.steps) + [[j, end]]
  {
    var compare := Comparing(p.arr, j, end);
    if key(p.arr[j]) < pivot && (v == Records || p.i != j) {
      var swap := Plain(Swapped(p.arr, p.i, j), Swap);
      ComparisonsConcat(p.steps, [compare, swap]);
      assert [compare, swap][1..] == [swap];
      assert Comparisons([swap]) == [];
    } else {
      ComparisonsConcat(p.steps, [compare]);
    }
  }

  lemma StepSnapshots<T>(v: Visualiser, key: T -> int, p: Scan<T>, j: int, end: int, pivot: int, m: multiset<T>)
    requires 0 <= p.i <= j < end < |p.arr|
    requires SnapshotsPerm(p.steps, m) && multiset(p.arr) == m
    ensures SnapshotsPerm(ScanStep(v, key, p, j, end, pivot).steps, m)
  {
    var compare := Comparing(p.arr, j, end);
    if key(p.arr[j]) < pivot && (v == Records || p.i != j) {
      var swap := Plain(Swapped(p.arr, p.i, j), Swap);
      SwappedPerm(p.arr, p.i, j);
      SnapshotsPermConcat(p.steps, [compare, swap], m);
    } else {
      SnapshotsPermConcat(p.steps, [compare], m);
    }
  }

  // ---------------------------------------------------------------------
  // The rest of partition from loop position j, by induction on end - j

  /** partition only swaps, so the array stays a permutation. */
  lemma {:induction false} FromPerm<T>(v: Visualiser, key: T -> int, p: Scan<T>, j: int, end: int, pivot: int)
    requires 0 <= p.i <= j <= end < |p.arr|
    ensures multiset(PartitionFrom(v, key, p, j, end, pivot).arr) == multiset(p.arr)
    decreases end - j
  {
    if j == end {
      assert PartitionFrom(v, key, p, j, end, pivot).arr == Swapped(p.arr, p.i, end);
      SwappedPerm(p.arr, p.i, end);
    } else {
      var q := ScanStep(v, key, p, j, end, pivot);
      assert PartitionFrom(v, key, p, j, end, pivot) == PartitionFrom(v, key, q, j + 1, end, pivot);
      assert multiset(q.arr) == multiset(p.arr) by {
        StepPerm(v, key, p, j, end, pivot);
      }
      FromPerm(v, key, q, j + 1, end, pivot);
    }
  }

  /** partition touches only positions between the boundary and end. */
  lemma {:induction false} FromFrame<T>(v: Visualiser, key: T -> int, p: Scan<T>, j: int, end: int, pivot: int)
    requires 0 <= p.i <= j <= end < |p.arr|
    ensures SameOutside(PartitionFrom(v, key, p, j, end, pivot).arr, p.arr, p.i, end + 1)
    decreases end - j
  {
    if j == end {
      SwappedFacts(p.arr, p.i, end);
    } else {
      var q := ScanStep(v, key, p, j, end, pivot);
      StepFrame(v, key, p, j, end, pivot);
      FromFrame(v, key, q, j + 1, end, pivot);
      SameOutsideTrans(PartitionFrom(v, key, q, j + 1, end, pivot).arr, q.arr, p.arr, q.i, end + 1, p.i, j + 1, p.i, end + 1);
    }
  }

  /** The loop invariant of partition carried to its end: the old last
      element lands on the returned boundary, with smaller keys before it
      and keys at least the pivot after it. */
  lemma {:induction false} FromSplit<T>(v: Visualiser, key: T -> int, p: Scan<T>, j: int, end: int, pivot: int, start: int)
    requires 0 <= start <= p.i <= j <= end < |p.arr| && key(p.arr[end]) == pivot
    requires forall k :: start <= k < p.i ==> key(p.arr[k]) < pivot
    requires forall k :: p.i <= k < j ==> pivot <= key(p.arr[k])
    ensures var r := PartitionFrom(v, key, p, j, end, pivot);
      && r.arr[r.i] == p.arr[end]
      && (forall k :: start <= k < r.i ==> key(r.arr[k]) < pivot)
      && (forall k :: r.i < k <= end ==> pivot <= key(r.arr[k]))
    decreases end - j
  {
    if j == end {
      SwappedFacts(p.arr, p.i, end);
    } else {
      var q := ScanStep(v, key, p, j, end, pivot);
      StepSplit(v, key, p, j, end, pivot, start);
      StepFrame(v, key, p, j, end, pivot);
      assert q.arr[end] == p.arr[end];
      FromSplit(v, key, q, j + 1, end, pivot, start);
    }
  }

  /** The boundary advances once for every remaining element below the pivot. */
  lemma {:induction false} FromCount<T>(v: Visualiser, key: T -> int, p: Scan<T>, j: int, end: int, pivot: int)
    requires 0 <= p.i <= j <= end < |p.arr|
    ensures PartitionFrom(v, key, p, j, end, pivot).i - p.i == CountBelow(key, p.arr[j..end], pivot)
    decreases end - j
  {
    if j < end {
      var q := ScanStep(v, key, p, j, end, pivot);
      FromCount(v, key, q, j + 1, end, pivot);
      StepFrame(v, key, p, j, end, pivot);
      SliceOutside(q.arr, p.arr, p.i, j + 1, j + 1, end);
      assert p.arr[j..end][1..] == p.arr[j + 1..end];
    }
  }

  /** While i == j, the next element below the pivot is swapped with itself. */
  lemma {:induction false} FromLead<T>(v: Visualiser, key: T -> int, p: Scan<T>, j: int, end: int, pivot: int)
    requires 0 <= p.i <= j <= end < |p.arr|
    ensures var r := PartitionFrom(v, key, p, j, end, pivot);
      p.i == j ==> LeadBelow(key, p.arr[j..end], pivot) <= r.i - p.i
    decreases end - j
  {
    if j < end {
      var q := ScanStep(v, key, p, j, end, pivot);
      FromLead(v, key, q, j + 1, end, pivot);
      StepFrame(v, key, p, j, end, pivot);
      SliceOutside(q.arr, p.arr, p.i, j + 1, j + 1, end);
      assert p.arr[j..end][1..] == p.arr[j + 1..end];
    }
  }

  /** How many steps of each kind the rest of partition records: one
      comparison per remaining position, one swap per element below the pivot
      (for the number visualiser, less the leading elements still swapped
      with themselves), one placement. */
  lemma {:induction false} FromKinds<T>(v: Visualiser, key: T -> int, p: Scan<T>, j: int, end: int, pivot: int, k: StepKind)
    requires 0 <= p.i <= j <= end < |p.arr|
    ensures var r := PartitionFrom(v, key, p, j, end, pivot);
      var swaps := r.i - p.i - (if v == Numbers && p.i == j then LeadBelow(key, p.arr[j..end], pivot) else 0);
      && |r.steps| == |p.steps| + (end - j) + swaps + 1
      && CountKind(r.steps, k) == CountKind(p.steps, k) + (if k == Compare then end - j else 0)
           + (if k == Swap then swaps else 0) + (if k == PlacePivot then 1 else 0)
    decreases end - j
  {
    if j == end {
      var t := Swapped(p.arr, p.i, end);
      assert PartitionFrom(v, key, p, j, end, pivot) == Scan(t, p.i, p.steps + [Plain(t, PlacePivot)]);
      OneStep(Plain(t, PlacePivot), k, multiset{});
      CountKindConcat(p.steps, [Plain(t, PlacePivot)], k);
    } else {
      var q := ScanStep(v, key, p, j, end, pivot);
      assert PartitionFrom(v, key, p, j, end, pivot) == PartitionFrom(v, key, q, j + 1, end, pivot);
      StepKinds(v, key, p, j, end, pivot, k);
      FromKinds(v, key, q, j + 1, end, pivot, k);
      StepFrame(v, key, p, j, end, pivot);
      SliceOutside(q.arr, p.arr, p.i, j + 1, j + 1, end);
      assert p.arr[j..end][1..] == p.arr[j + 1..end];
    }
  }

  /** The rest of partition compares every remaining position with end, in order. */
  lemma {:induction false} FromCompares<T>(v: Visualiser, key: T -> int, p: Scan<T>, j: int, end: int, pivot: int)
    requires 0 <= p.i <= j <= end < |p.arr|
    ensures Comparisons(PartitionFrom(v, key, p, j, end, pivot).steps) == Comparisons(p.steps) + ScanPairs(j, end)
    decreases end - j
  {
    if j == end {
      var t := Swapped(p.arr, p.i, end);
      assert PartitionFrom(v, key, p, j, end, pivot).steps == p.steps + [Plain(t, PlacePivot)];
      assert Comparisons([Plain(t, PlacePivot)]) == [] by {
        OneStep(Plain(t, PlacePivot), PlacePivot, multiset{});
      }
      ComparisonsConcat(p.steps, [Plain(t, PlacePivot)]);
      assert ScanPairs(j, end) == [];
    } else {
      var q := ScanStep(v, key, p, j, end, pivot);
      assert PartitionFrom(v, key, p, j, end, pivot) == PartitionFrom(v, key, q, j + 1, end, pivot);
      assert Comparisons(q.steps) == Comparisons(p.steps) + [[j, end]] by {
        StepCompares(v, key, p, j, end, pivot);
      }
      FromCompares(v, key, q, j + 1, end, pivot);
      ScanPairsCons(j, end);
      AppendAssoc2(Comparisons(p.steps), [[j, end]], ScanPairs(j + 1, end));
    }
  }

  /** Every snapshot the rest of partition records is a permutation. */
  lemma {:induction false} FromSnapshots<T>(v: Visualiser, key: T -> int, p: Scan<T>, j: int, end: int, pivot: int, m: multiset<T>)
    requires 0 <= p.i <= j <= end < |p.arr|
    requires SnapshotsPerm(p.steps, m) && multiset(p.arr) == m
    ensures SnapshotsPerm(PartitionFrom(v, key, p, j, end, pivot).steps, m)
    decreases end - j
  {
    if j == end {
      var t := Swapped(p.arr, p.i, end);
      assert PartitionFrom(v, key, p, j, end, pivot).steps == p.steps + [Plain(t, PlacePivot)];
      assert SnapshotsPerm([Plain(t, PlacePivot)], m) by {
        SwappedPerm(p.arr, p.i, end);
        OneStep(Plain(t, PlacePivot), PlacePivot, m);
      }
      SnapshotsPermConcat(p.steps, [Plain(t, PlacePivot)], m);
    } else {
      var q := ScanStep(v, key, p, j, end, pivot);
      assert PartitionFrom(v, key, p, j, end, pivot) == PartitionFrom(v, key, q, j + 1, end, pivot);
      assert SnapshotsPerm(q.steps, m) && multiset(q.arr) == m by {
        StepSnapshots(v, key, p, j, end, pivot, m);
        StepPerm(v, key, p, j, end, pivot);
      }
      FromSnapshots(v, key, q, j + 1, end, pivot, m);
    }
  }

  /** The placement step is the last one and shows the final array. */
  lemma {:induction false} FromLast<T>(v: Visualiser, key: T -> int, p: Scan<T>, j: int, end: int, pivot: int)
    requires 0 <= p.i <= j <= end < |p.arr|
    ensures var r := PartitionFrom(v, key, p, j, end, pivot);
      |r.steps| > 0 && r.steps[|r.steps| - 1] == Plain(r.arr, PlacePivot)
    decreases end - j
  {
    if j < end {
      FromLast(v, key, ScanStep(v, key, p, j, end, pivot), j + 1, end, pivot);
    }
  }

  /** f's key is below x (below) or at least x (not below). */
  ghost predicate InBound<T>(key: T -> int, f: T, x: int, below: bool)
  {
    if below then key(f) < x else x <= key(f)
  }

  /** Every element at positions [lo, hi) of s meets the bound. */
  ghost predicate AllIn<T>(key: T -> int, s: seq<T>, lo: int, hi: int, x: int, below: bool)
  {
    forall k :: lo <= k < hi && 0 <= k < |s| ==> InBound(key, s[k], x, below)
  }

  /** A bound met by every element of [lo, end] still holds after partition. */
  lemma {:induction false} FromKeeps<T>(v: Visualiser, key: T -> int, p: Scan<T>, j: int, end: int, pivot: int,
                                        lo: int, b: int, below: bool)
    requires 0 <= lo <= p.i <= j <= end < |p.arr|
    requires AllIn(key, p.arr, lo, end + 1, b, below)
    ensures AllIn(key, PartitionFrom(v, key, p, j, end, pivot).arr, lo, end + 1, b, below)
    decreases end - j
  {
    if j == end {
      SwappedFacts(p.arr, p.i, end);
    } else {
      SwappedFacts(p.arr, p.i, j);
      FromKeeps(v, key, ScanStep(v, key, p, j, end, pivot), j + 1, end, pivot, lo, b, below);
    }
  }

  // ---------------------------------------------------------------------
  // partition

  /** partition's postcondition: the returned index holds the old last
      element, every element before it in the segment has a smaller key,
      every element after it a key at least as large, only [start, end] is
      touched, and the array is a permutation of the old one. */
  lemma PartitionSplits<T>(v: Visualiser, key: T -> int, s: seq<T>, start: int, end: int)
    requires 0 <= start < end < |s|
    ensures var r := PartitionOf(v, key, s, start, end);
      && start <= r.i <= end
      && r.arr[r.i] == s[end]
      && (forall k :: start <= k < r.i ==> key(r.arr[k]) < key(s[end]))
      && (forall k :: r.i < k <= end ==> key(s[end]) <= key(r.arr[k]))
      && SameOutside(r.arr, s, start, end + 1)
      && multiset(r.arr) == multiset(s)
  {
    var p := Scan(s, start, []);
    FromSplit(v, key, p, start, end, key(s[end]), start);
    FromFrame(v, key, p, start, end, key(s[end]));
    FromPerm(v, key, p, start, end, key(s[end]));
  }

  /** partition's steps: end - start comparisons [j, end] in increasing j,
      the placement step last, every snapshot a permutation of the input. */
  lemma PartitionSteps<T>(v: Visualiser, key: T -> int, s: seq<T>, start: int, end: int)
    requires 0 <= start < end < |s|
    ensures var r := PartitionOf(v, key, s, start, end);
      && Comparisons(r.steps) == ScanPairs(start, end)
      && r.steps[|r.steps| - 1] == Plain(r.arr, PlacePivot)
      && SnapshotsPerm(r.steps, multiset(s))
  {
    var p := Scan(s, start, []);
    var pivot := key(s[end]);
    FromCompares(v, key, p, start, end, pivot);
    FromLast(v, key, p, start, end, pivot);
    FromSnapshots(v, key, p, start, end, pivot, multiset(s));
  }

  /** partition's step counts: one comparison per position of [start, end),
      one swap step per element below the pivot (the record visualiser even
      when i = j; the number visualiser not for the leading run of such
      elements, where i = j), one placement, and nothing else. */
  lemma PartitionKinds<T>(v: Visualiser, key: T -> int, s: seq<T>, start: int, end: int, k: StepKind)
    requires 0 <= start < end < |s|
    ensures var r := PartitionOf(v, key, s, start, end);
      var swaps := (r.i - start) - (if v == Numbers then LeadBelow(key, s[start..end], key(s[end])) else 0);
      && r.i - start == CountBelow(key, s[start..end], key(s[end]))
      && 0 <= swaps
      && |r.steps| == (end - start) + swaps + 1
      && CountKind(r.steps, k) == (if k == Compare then end - start else 0)
           + (if k == Swap then swaps else 0) + (if k == PlacePivot then 1 else 0)
  {
    var p := Scan(s, start, []);
    var pivot := key(s[end]);
    FromCount(v, key, p, start, end, pivot);
    FromLead(v, key, p, start, end, pivot);
    FromKinds(v, key, p, start, end, pivot, k);
  }

  lemma PartitionKeeps<T>(v: Visualiser, key: T -> int, s: seq<T>, start: int, end: int, b: int, below: bool)
    requires 0 <= start < end < |s| && AllIn(key, s, start, end + 1, b, below)
    ensures AllIn(key, PartitionOf(v, key, s, start, end).arr, start, end + 1, b, below)
  {
    FromKeeps(v, key, Scan(s, start, []), start, end, key(s[end]), start, b, below);
  }

  // ---------------------------------------------------------------------
  // quickSortWithSteps

  /** The pivot-selection step; only the number visualiser marks end as the pivot. */
  function SelectStep<T>(v: Visualiser, s: seq<T>, end: int): Step<T>
  {
    Step(s, None, if v == Numbers then Some(end) else None, None, None, SelectPivot)
  }

  /** The step announcing that the pivot has reached its final position p. */
  function PivotStep<T>(s: seq<T>, p: int): Step<T>
  {
    Step(s, None, Some(p), None, None, PivotPlaced)
  }

  /** quickSortWithSteps on [start, end]: nothing for fewer than two
      elements; otherwise the selection step, partition, the pivot
      announcement, then the two sides. */
  function QuickSortTrace<T>(v: Visualiser, key: T -> int, s: seq<T>, start: int, end: int): (r: Run<T>)
    requires 0 <= start && end < |s|
    ensures |r.arr| == |s|
    decreases end - start, 1
  {
    if start >= end then Run(s, []) else QuickLevel(v, key, s, start, end)
  }

  /** quickSortWithSteps on a range of at least two elements. It is a
      separate member of the recursion so that unfolding QuickSortTrace
      once stops here. */
  function QuickLevel<T>(v: Visualiser, key: T -> int, s: seq<T>, start: int, end: int): (r: Run<T>)
    requires 0 <= start < end < |s|
    ensures |r.arr| == |s|
    decreases end - start, 0
  {
    var pr := PartitionOf(v, key, s, start, end);
    var left := QuickSortTrace(v, key, pr.arr, start, pr.i - 1);
    var right := QuickSortTrace(v, key, left.arr, pr.i + 1, end);
    Run(right.arr, [SelectStep(v, s, end)] + pr.steps + [PivotStep(pr.arr, pr.i)] + left.steps + right.steps)
  }

  /** Quicksort on [start, end] changes nothing outside it. */
  lemma {:induction false} QuickFrame<T>(v: Visualiser, key: T -> int, s: seq<T>, start: int, end: int, r: Run<T>)
    requires 0 <= start && end < |s| && r == QuickSortTrace(v, key, s, start, end)
    ensures SameOutside(r.arr, s, start, end + 1)
    decreases end - start
  {
    if start < end {
      var pr := PartitionOf(v, key, s, start, end);
      var left := QuickSortTrace(v, key, pr.arr, start, pr.i - 1);
      var right := QuickSortTrace(v, key, left.arr, pr.i + 1, end);
      assert r.arr == right.arr;
      PartitionSplits(v, key, s, start, end);
      QuickFrame(v, key, pr.arr, start, pr.i - 1, left);
      QuickFrame(v, key, left.arr, pr.i + 1, end, right);
      SameOutsideTrans(left.arr, pr.arr, s, start, pr.i, start, end + 1, start, end + 1);
      SameOutsideTrans(right.arr, left.arr, s, pr.i + 1, end + 1, start, end + 1, start, end + 1);
    }
  }

  /** Quicksort only swaps: the array stays a permutation of the input. */
  lemma {:induction false} QuickPerm<T>(v: Visualiser, key: T -> int, s: seq<T>, start: int, end: int, r: Run<T>)
    requires 0 <= start && end < |s| && r == QuickSortTrace(v, key, s, start, end)
    ensures multiset(r.arr) == multiset(s)
    decreases end - start
  {
    if start < end {
      var pr := PartitionOf(v, key, s, start, end);
      var left := QuickSortTrace(v, key, pr.arr, start, pr.i - 1);
      var right := QuickSortTrace(v, key, left.arr, pr.i + 1, end);
      assert r.arr == right.arr;
      PartitionSplits(v, key, s, start, end);
      QuickPerm(v, key, pr.arr, start, pr.i - 1, left);
      QuickPerm(v, key, left.arr, pr.i + 1, end, right);
    }
  }

  /** A bound every element of [start, end] meets is still met after sorting it. */
  lemma {:induction false} QuickKeeps<T>(v: Visualiser, key: T -> int, s: seq<T>, start: int, end: int, r: Run<T>,
                                         b: int, below: bool)
    requires 0 <= start && end < |s| && r == QuickSortTrace(v, key, s, start, end)
    requires AllIn(key, s, start, end + 1, b, below)
    ensures AllIn(key, r.arr, start, end + 1, b, below)
    decreases end - start
  {
    if start < end {
      var pr := PartitionOf(v, key, s, start, end);
      var left := QuickSortTrace(v, key, pr.arr, start, pr.i - 1);
      var right := QuickSortTrace(v, key, left.arr, pr.i + 1, end);
      assert r.arr == right.arr;
      PartitionKeeps(v, key, s, start, end, b, below);
      QuickKeeps(v, key, pr.arr, start, pr.i - 1, left, b, below);
      QuickFrame(v, key, pr.arr, start, pr.i - 1, left);
      KeepsMiddle(key, pr.arr, left.arr, start, pr.i, end, b, below);
      QuickKeeps(v, key, left.arr, pr.i + 1, end, right, b, below);
      QuickFrame(v, key, left.arr, pr.i + 1, end, right);
      KeepsRight(key, left.arr, right.arr, start, pr.i, end, b, below);
    }
  }

  lemma KeepsMiddle<T>(key: T -> int, t: seq<T>, u: seq<T>, start: int, p: int, end: int, b: int, below: bool)
    requires AllIn(key, t, start, end + 1, b, below) && SameOutside(u, t, start, p)
    requires AllIn(key, u, start, p, b, below)
    ensures AllIn(key, u, start, end + 1, b, below)
  {
  }

  lemma KeepsRight<T>(key: T -> int, t: seq<T>, u: seq<T>, start: int, p: int, end: int, b: int, below: bool)
    requires AllIn(key, t, start, end + 1, b, below) && SameOutside(u, t, p + 1, end + 1)
    requires AllIn(key, u, p + 1, end + 1, b, below)
    ensures AllIn(key, u, start, end + 1, b, below)
  {
  }

  /** A bound on a block is kept by changes outside the block. */
  lemma AllInOutside<T>(key: T -> int, t: seq<T>, u: seq<T>, x: int, y: int, lo: int, hi: int, b: int, below: bool)
    requires SameOutside(u, t, x, y) && (hi <= x || y <= lo)
    requires AllIn(key, t, lo, hi, b, below)
    ensures AllIn(key, u, lo, hi, b, below)
  {
  }

  /** Sortedness of a block is kept by changes outside the block. */
  lemma SortedOutside<T>(key: T -> int, t: seq<T>, u: seq<T>, x: int, y: int, lo: int, hi: int)
    requires SameOutside(u, t, x, y) && (hi <= x || y <= lo)
    requires SortedRange(key, t, lo, hi)
    ensures SortedRange(key, u, lo, hi)
  {
  }

  /** A sorted block of keys below the one at p, then p, then a sorted block
      of keys at least that one, make a sorted range. */
  lemma SortedJoin<T>(key: T -> int, s: seq<T>, lo: int, p: int, hi: int)
    requires 0 <= lo <= p < hi <= |s|
    requires SortedRange(key, s, lo, p) && SortedRange(key, s, p + 1, hi)
    requires AllIn(key, s, lo, p, key(s[p]), true) && AllIn(key, s, p + 1, hi, key(s[p]), false)
    ensures SortedRange(key, s, lo, hi)
  {
  }

  /** quickSortWithSteps leaves [start, end] in non-decreasing key order. */
  lemma {:induction false} QuickSorted<T>(v: Visualiser, key: T -> int, s: seq<T>, start: int, end: int, r: Run<T>)
    requires 0 <= start && end < |s| && r == QuickSortTrace(v, key, s, start, end)
    ensures SortedRange(key, r.arr, start, end + 1)
    decreases end - start
  {
    if start < end {
      var pr := PartitionOf(v, key, s, start, end);
      var p, pv := pr.i, key(s[end]);
      var left := QuickSortTrace(v, key, pr.arr, start, p - 1);
      var right := QuickSortTrace(v, key, left.arr, p + 1, end);
      assert r.arr == right.arr;
      assert start <= p <= end && |pr.arr| == |s| && key(pr.arr[p]) == pv
        && AllIn(key, pr.arr, start, p, pv, true) && AllIn(key, pr.arr, p + 1, end + 1, pv, false) by {
        PartitionSplits(v, key, s, start, end);
      }
      assert SortedRange(key, left.arr, start, p) && SameOutside(left.arr, pr.arr, start, p)
        && AllIn(key, left.arr, start, p, pv, true) by {
        QuickSorted(v, key, pr.arr, start, p - 1, left);
        QuickFrame(v, key, pr.arr, start, p - 1, left);
        QuickKeeps(v, key, pr.arr, start, p - 1, left, pv, true);
      }
      assert AllIn(key, left.arr, p + 1, end + 1, pv, false) by {
        AllInOutside(key, pr.arr, left.arr, start, p, p + 1, end + 1, pv, false);
      }
      assert SortedRange(key, right.arr, p + 1, end + 1) && SameOutside(right.arr, left.arr, p + 1, end + 1)
        && AllIn(key, right.arr, p + 1, end + 1, pv, false) by {
        QuickSorted(v, key, left.arr, p + 1, end, right);
        QuickFrame(v, key, left.arr, p + 1, end, right);
        QuickKeeps(v, key, left.arr, p + 1, end, right, pv, false);
      }
      SortedLevel(key, pr.arr, left.arr, right.arr, start, p, end, pv);
    }
  }

  /** One quicksort level: the pivot between a sorted block of smaller keys
      and a sorted block of keys at least its own. */
  lemma SortedLevel<T>(key: T -> int, pa: seq<T>, la: seq<T>, ra: seq<T>, start: int, p: int, end: int, pv: int)
    requires 0 <= start <= p <= end < |pa| && key(pa[p]) == pv
    requires SameOutside(la, pa, start, p) && SameOutside(ra, la, p + 1, end + 1)
    requires SortedRange(key, la, start, p) && AllIn(key, la, start, p, pv, true)
    requires SortedRange(key, ra, p + 1, end + 1) && AllIn(key, ra, p + 1, end + 1, pv, false)
    ensures SortedRange(key, ra, start, end + 1)
  {
    AllInOutside(key, la, ra, p + 1, end + 1, start, p, pv, true);
    SortedOutside(key, la, ra, p + 1, end + 1, start, p);
    assert ra[p] == pa[p];
    SortedJoin(key, ra, start, p, end + 1);
  }

  /** Every snapshot quicksort records is a permutation of its input. */
  lemma {:induction false} QuickSnapshots<T>(v: Visualiser, key: T -> int, s: seq<T>, start: int, end: int, r: Run<T>)
    requires 0 <= start && end < |s| && r == QuickSortTrace(v, key, s, start, end)
    ensures SnapshotsPerm(r.steps, multiset(s))
    decreases end - start
  {
    if start < end {
      var pr := PartitionOf(v, key, s, start, end);
      var left := QuickSortTrace(v, key, pr.arr, start, pr.i - 1);
      var right := QuickSortTrace(v, key, left.arr, pr.i + 1, end);
      var m := multiset(s);
      var sel, piv := SelectStep(v, s, end), PivotStep(pr.arr, pr.i);
      assert r.steps == [sel] + pr.steps + [piv] + left.steps + right.steps;
      assert multiset(pr.arr) == m && SnapshotsPerm(pr.steps, m) by {
        PartitionSplits(v, key, s, start, end);
        PartitionSteps(v, key, s, start, end);
      }
      assert SnapshotsPerm(left.steps, m) && multiset(left.arr) == m by {
        QuickPerm(v, key, pr.arr, start, pr.i - 1, left);
        QuickSnapshots(v, key, pr.arr, start, pr.i - 1, left);
      }
      QuickSnapshots(v, key, left.arr, pr.i + 1, end, right);
      SnapshotsOfLevel(sel, pr.steps, piv, left.steps, right.steps, m);
    }
  }

  /** SnapshotsPerm over the five parts of one quicksort level. */
  lemma SnapshotsOfLevel<T>(sel: Step<T>, ps: seq<Step<T>>, piv: Step<T>, ls: seq<Step<T>>, rs: seq<Step<T>>, m: multiset<T>)
    requires multiset(sel.snapshot) == m && multiset(piv.snapshot) == m
    requires SnapshotsPerm(ps, m) && SnapshotsPerm(ls, m) && SnapshotsPerm(rs, m)
    ensures SnapshotsPerm([sel] + ps + [piv] + ls + rs, m)
  {
    OneStep(sel, Ready, m);
    OneStep(piv, Ready, m);
    SnapshotsPermConcat([sel], ps, m);
    SnapshotsPermConcat([sel] + ps, [piv], m);
    SnapshotsPermConcat([sel] + ps + [piv], ls, m);
    SnapshotsPermConcat([sel] + ps + [piv] + ls, rs, m);
  }

  /** PairsIn over the five parts of one quicksort level. */
  lemma PairsOfLevel<T>(sel: Step<T>, ps: seq<Step<T>>, piv: Step<T>, ls: seq<Step<T>>, rs: seq<Step<T>>, lo: int, hi: int)
    requires sel.comparing.None? && piv.comparing.None?
    requires PairsIn(Comparisons(ps), lo, hi) && PairsIn(Comparisons(ls), lo, hi) && PairsIn(Comparisons(rs), lo, hi)
    ensures PairsIn(Comparisons([sel] + ps + [piv] + ls + rs), lo, hi)
  {
    var a1 := [sel] + ps;
    var a2 := a1 + [piv];
    var a3 := a2 + ls;
    ComparisonsConcat([sel], ps);
    ComparisonsConcat(a1, [piv]);
    ComparisonsConcat(a2, ls);
    ComparisonsConcat(a3, rs);
    assert Comparisons([sel]) == [] && Comparisons([piv]) == [];
    assert Comparisons(a2) == Comparisons(ps);
    PairsInConcat(Comparisons(ps), Comparisons(ls), lo, hi);
    PairsInConcat(Comparisons(a3), Comparisons(rs), lo, hi);
  }

  /** Every comparison quicksort records is a pair of positions of [start, end]. */
  lemma {:induction false} QuickCompares<T>(v: Visualiser, key: T -> int, s: seq<T>, start: int, end: int, r: Run<T>)
    requires 0 <= start && end < |s| && r == QuickSortTrace(v, key, s, start, end)
    ensures PairsIn(Comparisons(r.steps), start, end)
    decreases end - start
  {
    if start < end {
      var pr := PartitionOf(v, key, s, start, end);
      var left := QuickSortTrace(v, key, pr.arr, start, pr.i - 1);
      var right := QuickSortTrace(v, key, left.arr, pr.i + 1, end);
      assert r.steps == [SelectStep(v, s, end)] + pr.steps + [PivotStep(pr.arr, pr.i)] + left.steps + right.steps;
      PartitionSteps(v, key, s, start, end);
      ScanPairsIn(start, end);
      QuickCompares(v, key, pr.arr, start, pr.i - 1, left);
      QuickCompares(v, key, left.arr, pr.i + 1, end, right);
      PairsInWiden(Comparisons(left.steps), start, pr.i - 1, start, end);
      PairsInWiden(Comparisons(right.steps), pr.i + 1, end, start, end);
      PairsOfLevel(SelectStep(v, s, end), pr.steps, PivotStep(pr.arr, pr.i), left.steps, right.steps, start, end);
    }
  }

  /** Pivots fixed within [start, p - 1] stay fixed while [p + 1, end] is
      rearranged. */
  lemma PivotsAcrossRight<T>(ls: seq<Step<T>>, la: seq<T>, ra: seq<T>, start: int, p: int, end: int)
    requires PivotsFixed(ls, la, start, p - 1) && SameOutside(ra, la, p + 1, end + 1) && p <= end
    ensures PivotsFixed(ls, ra, start, end)
  {
    PivotsFixedTransfer(ls, la, ra, start, p - 1, p + 1, end + 1, start, end);
  }

  /** The left side's pivots, fixed in the array the left recursion leaves,
      stay fixed in the array the right recursion leaves. */
  lemma PivotsLeftSettled<T>(v: Visualiser, key: T -> int, s: seq<T>, start: int, end: int,
                          pr: Scan<T>, left: Run<T>, right: Run<T>)
    requires 0 <= start < end < |s| && pr == PartitionOf(v, key, s, start, end)
    requires left == QuickSortTrace(v, key, pr.arr, start, pr.i - 1)
    requires right == QuickSortTrace(v, key, left.arr, pr.i + 1, end)
    requires PivotsFixed(left.steps, left.arr, start, pr.i - 1)
    ensures PivotsFixed(left.steps, right.arr, start, end)
  {
    QuickFrame(v, key, left.arr, pr.i + 1, end, right);
    PivotsAcrossRight(left.steps, left.arr, right.arr, start, pr.i, end);
  }

  /** The pivot partition placed at pr.i is still there after both
      recursive calls. */
  lemma PivotStays<T>(v: Visualiser, key: T -> int, s: seq<T>, start: int, end: int,
                          pr: Scan<T>, left: Run<T>, right: Run<T>)
    requires 0 <= start < end < |s| && pr == PartitionOf(v, key, s, start, end)
    requires left == QuickSortTrace(v, key, pr.arr, start, pr.i - 1)
    requires right == QuickSortTrace(v, key, left.arr, pr.i + 1, end)
    ensures right.arr[pr.i] == pr.arr[pr.i]
  {
    QuickFrame(v, key, pr.arr, start, pr.i - 1, left);
    QuickFrame(v, key, left.arr, pr.i + 1, end, right);
  }

  /** One level of QuickPivots, from the facts about the two recursive
      traces stated in the final array. */
  lemma QuickPivotsStep<T>(v: Visualiser, key: T -> int, s: seq<T>, start: int, end: int, r: Run<T>,
                          pr: Scan<T>, left: Run<T>, right: Run<T>)
    requires 0 <= start < end < |s| && r == QuickSortTrace(v, key, s, start, end)
    requires pr == PartitionOf(v, key, s, start, end)
    requires left == QuickSortTrace(v, key, pr.arr, start, pr.i - 1)
    requires right == QuickSortTrace(v, key, left.arr, pr.i + 1, end)
    requires PivotsFixed(left.steps, right.arr, start, end) && PivotsFixed(right.steps, right.arr, start, end)
    requires right.arr[pr.i] == pr.arr[pr.i]
    ensures PivotsFixed(r.steps, r.arr, start, end)
  {
    assert r == QuickLevel(v, key, s, start, end);
    assert CountKind(pr.steps, PivotPlaced) == 0 by {
      PartitionKinds(v, key, s, start, end, PivotPlaced);
    }
    PivotsOfLevel(SelectStep(v, s, end), pr.steps, pr.arr, pr.i, left.steps, right.steps, right.arr, start, end);
  }

  /** PivotsFixed over the five parts of one quicksort level. */
  lemma PivotsOfLevel<T>(sel: Step<T>, ps: seq<Step<T>>, pa: seq<T>, p: int, ls: seq<Step<T>>,
                         rs: seq<Step<T>>, ra: seq<T>, start: int, end: int)
    requires sel.kind != PivotPlaced && CountKind(ps, PivotPlaced) == 0
    requires start <= p <= end && 0 <= p < |pa| && p < |ra| && ra[p] == pa[p]
    requires PivotsFixed(ls, ra, start, end) && PivotsFixed(rs, ra, start, end)
    ensures PivotsFixed([sel] + ps + [PivotStep(pa, p)] + ls + rs, ra, start, end)
  {
    var piv := PivotStep(pa, p);
    var a1 := [sel] + ps;
    var a2 := a1 + [piv];
    var a3 := a2 + ls;
    PivotsFixedNone(ps, ra, start, end);
    assert PivotsFixed([sel], ra, start, end);
    assert PivotsFixed([piv], ra, start, end);
    PivotsFixedConcat([sel], ps, ra, start, end);
    PivotsFixedConcat(a1, [piv], ra, start, end);
    PivotsFixedConcat(a2, ls, ra, start, end);
    PivotsFixedConcat(a3, rs, ra, start, end);
  }

  /** Every pivot announcement quicksort records names a position of
      [start, end] whose element stays there to the end of the sort. */
  lemma {:induction false} QuickPivots<T>(v: Visualiser, key: T -> int, s: seq<T>, start: int, end: int, r: Run<T>)
    requires 0 <= start && end < |s| && r == QuickSortTrace(v, key, s, start, end)
    ensures PivotsFixed(r.steps, r.arr, start, end)
    decreases end - start
  {
    if start < end {
      var pr := PartitionOf(v, key, s, start, end);
      var left := QuickSortTrace(v, key, pr.arr, start, pr.i - 1);
      var right := QuickSortTrace(v, key, left.arr, pr.i + 1, end);
      QuickPivots(v, key, pr.arr, start, pr.i - 1, left);
      QuickPivots(v, key, left.arr, pr.i + 1, end, right);
      PivotsLeftSettled(v, key, s, start, end, pr, left, right);
      PivotsFixedWiden(right.steps, right.arr, pr.i + 1, end, start, end);
      PivotStays(v, key, s, start, end, pr, left, right);
      QuickPivotsStep(v, key, s, start, end, r, pr, left, right);
    }
  }

  // ---------------------------------------------------------------------
  // generateQuickSortSteps

  /** The whole trace for input data: the start step, quickSortWithSteps on
      [0, n - 1] (n - 1 is -1 for empty input), and the completion step over
      the sorted copy. */
  function QuickSortSteps<T>(v: Visualiser, key: T -> int, data: seq<T>): seq<Step<T>>
  {
    var r := QuickSortTrace(v, key, data, 0, |data| - 1);
    [Plain(data, Start)] + r.steps + [Finished(r.arr)]
  }

  /** The trace opens on the input and closes on a sorted permutation of it,
      with every index marked sorted; inputs of at most one element give
      just these two steps. */
  lemma QuickSortEnds<T>(v: Visualiser, key: T -> int, data: seq<T>)
    ensures var ss := QuickSortSteps(v, key, data);
      && |ss| >= 2
      && ss[0] == Plain(data, Start)
      && ss[|ss| - 1].kind == Complete
      && ss[|ss| - 1].sorted == Some(Range(0, |data|))
      && SortedBy(key, ss[|ss| - 1].snapshot)
      && multiset(ss[|ss| - 1].snapshot) == multiset(data)
      && (|data| <= 1 <==> |ss| == 2)
  {
    var r := QuickSortTrace(v, key, data, 0, |data| - 1);
    QuickPerm(v, key, data, 0, |data| - 1, r);
    QuickSorted(v, key, data, 0, |data| - 1, r);
    SortedRangeSlice(key, r.arr, 0, |r.arr|);
    assert r.arr[0..|r.arr|] == r.arr;
    if |data| > 1 {
      assert r == QuickLevel(v, key, data, 0, |data| - 1);
    }
  }

  /** Quicksort only swaps: every snapshot of the trace is a permutation of
      the input. */
  lemma QuickSortSnapshots<T>(v: Visualiser, key: T -> int, data: seq<T>)
    ensures SnapshotsPerm(QuickSortSteps(v, key, data), multiset(data))
  {
    var r := QuickSortTrace(v, key, data, 0, |data| - 1);
    QuickSnapshots(v, key, data, 0, |data| - 1, r);
    QuickPerm(v, key, data, 0, |data| - 1, r);
    SnapshotsPermConcat([Plain(data, Start)], r.steps, multiset(data));
    SnapshotsPermConcat([Plain(data, Start)] + r.steps, [Finished(r.arr)], multiset(data));
  }

  /** Every comparison of the trace is a pair x < y of indices of the input. */
  lemma QuickSortCompares<T>(v: Visualiser, key: T -> int, data: seq<T>)
    ensures PairsIn(Comparisons(QuickSortSteps(v, key, data)), 0, |data| - 1)
  {
    var r := QuickSortTrace(v, key, data, 0, |data| - 1);
    QuickCompares(v, key, data, 0, |data| - 1, r);
    EndsComparisons(Plain(data, Start), r.steps, Finished(r.arr));
  }

  /** Every pivot announcement of the trace names an index whose element is
      the one the final sorted array holds there. */
  lemma QuickSortPivots<T>(v: Visualiser, key: T -> int, data: seq<T>)
    ensures var ss := QuickSortSteps(v, key, data);
      PivotsFixed(ss, ss[|ss| - 1].snapshot, 0, |data| - 1)
  {
    var r := QuickSortTrace(v, key, data, 0, |data| - 1);
    QuickPivots(v, key, data, 0, |data| - 1, r);
    assert PivotsFixed([Plain(data, Start)], r.arr, 0, |data| - 1);
    assert PivotsFixed([Finished(r.arr)], r.arr, 0, |data| - 1);
    PivotsFixedConcat([Plain(data, Start)], r.steps, r.arr, 0, |data| - 1);
    PivotsFixedConcat([Plain(data, Start)] + r.steps, [Finished(r.arr)], r.arr, 0, |data| - 1);
  }

  // ---------------------------------------------------------------------
  // The in-place generator

  /** One iteration of partition's loop on the tracer: the comparison step,
      then, for an element below the pivot, the swap to the boundary, its
      step where this visualiser records it, and the boundary moved on. */
  method ScanAt<T>(t: Tracer<T>, v: Visualiser, key: T -> int, i: int, j: int, end: int, pivot: T,
                   ghost base: seq<Step<T>>, ghost ps: seq<Step<T>>) returns (i': int, ghost ps': seq<Step<T>>)
    requires 0 <= i <= j < end < t.a.Length && t.steps == base + ps
    modifies t, t.a
    ensures Scan(t.a[..], i', ps') == ScanStep(v, key, Scan(old(t.a[..]), i, ps), j, end, key(pivot))
    ensures t.steps == base + ps'
  {
    var compare := Comparing(t.a[..], j, end);
    t.Push(compare);
    if key(t.a[j]) < key(pivot) {
      t.Exchange(i, j);
      if v == Records || i != j {
        t.Push(Plain(t.a[..], Swap));
        ps' := ps + [compare, Plain(t.a[..], Swap)];
      } else {
        ps' := ps + [compare];
      }
      i' := i + 1;
    } else {
      ps' := ps + [compare];
      i' := i;
    }
  }

  /** partition(array, start, end) on the tracer's working copy: reads the
      pivot once, scans j over [start, end) and finally swaps the pivot to
      the boundary, recording exactly the steps PartitionOf describes. */
  method Partition<T>(t: Tracer<T>, v: Visualiser, key: T -> int, start: int, end: int) returns (p: int)
    requires 0 <= start < end < t.a.Length
    modifies t, t.a
    ensures var r := PartitionOf(v, key, old(t.a[..]), start, end);
      t.a[..] == r.arr && p == r.i && t.steps == old(t.steps) + r.steps
  {
    ghost var s0 := t.a[..];
    ghost var base := t.steps;
    ghost var ps: seq<Step<T>> := [];
    var pivot := t.a[end];
    var i := start;
    for j := start to end
      invariant start <= i <= j
      invariant PartitionFrom(v, key, Scan(t.a[..], i, ps), j, end, key(pivot)) == PartitionOf(v, key, s0, start, end)
      invariant t.steps == base + ps
    {
      i, ps := ScanAt(t, v, key, i, j, end, pivot, base, ps);
    }
    ghost var last := Swapped(t.a[..], i, end);
    assert PartitionOf(v, key, s0, start, end) == Scan(last, i, ps + [Plain(last, PlacePivot)]);
    t.Exchange(i, end);
    t.Push(Plain(t.a[..], PlacePivot));
    p := i;
  }

  /** quickSortWithSteps(array, start, end) on the tracer: the steps and the
      final array are exactly QuickSortTrace's. */
  method QuickSortRec<T>(t: Tracer<T>, v: Visualiser, key: T -> int, start: int, end: int)
    requires 0 <= start && end < t.a.Length
    modifies t, t.a
    ensures var r := QuickSortTrace(v, key, old(t.a[..]), start, end);
      t.a[..] == r.arr && t.steps == old(t.steps) + r.steps
    decreases end - start
  {
    if start >= end {
      assert QuickSortTrace(v, key, t.a[..], start, end) == Run(t.a[..], []);
      assert t.steps + [] == t.steps;
      return;
    }
    ghost var s0 := t.a[..];
    ghost var steps0 := t.steps;
    ghost var pr := PartitionOf(v, key, s0, start, end);
    ghost var sel := SelectStep(v, s0, end);
    t.Push(SelectStep(v, t.a[..], end));
    var p := Partition(t, v, key, start, end);
    assert t.a[..] == pr.arr && p == pr.i;
    ghost var piv := PivotStep(pr.arr, pr.i);
    t.Push(PivotStep(t.a[..], p));
    ghost var mid := t.steps;
    assert mid == steps0 + [sel] + pr.steps + [piv];
    ghost var left := QuickSortTrace(v, key, pr.arr, start, pr.i - 1);
    QuickSortRec(t, v, key, start, p - 1);
    assert t.a[..] == left.arr && t.steps == mid + left.steps;
    ghost var right := QuickSortTrace(v, key, left.arr, pr.i + 1, end);
    QuickSortRec(t, v, key, p + 1, end);
    assert t.a[..] == right.arr && t.steps == mid + left.steps + right.steps;
    LevelParts(v, key, s0, start, end, pr, left, right);
    assert t.steps == steps0 + ([sel] + pr.steps + [piv] + left.steps + right.steps) by {
      AppendAssoc5(steps0, [sel], pr.steps, [piv], left.steps, right.steps);
    }
  }

  /** One level of quicksortWithSteps, its parts named. */
  lemma LevelParts<T>(v: Visualiser, key: T -> int, s: seq<T>, start: int, end: int, pr: Scan<T>, left: Run<T>, right: Run<T>)
    requires 0 <= start < end < |s| && pr == PartitionOf(v, key, s, start, end)
    requires left == QuickSortTrace(v, key, pr.arr, start, pr.i - 1)
    requires right == QuickSortTrace(v, key, left.arr, pr.i + 1, end)
    ensures QuickSortTrace(v, key, s, start, end)
      == Run(right.arr, [SelectStep(v, s, end)] + pr.steps + [PivotStep(pr.arr, pr.i)] + left.steps + right.steps)
  {
    assert QuickSortTrace(v, key, s, start, end) == QuickLevel(v, key, s, start, end);
  }

  /** generateQuickSortSteps(data.slice()): sorts a fresh copy, so the
      caller's data is untouched, and returns exactly QuickSortSteps. */
  method GenerateQuickSortSteps<T>(v: Visualiser, key: T -> int, data: seq<T>) returns (steps: seq<Step<T>>)
    ensures steps == QuickSortSteps(v, key, data)
  {
    var a := new T[|data|](k requires 0 <= k < |data| => data[k]);
    assert a[..] == data;
    var t := new Tracer(a);
    t.Push(Plain(a[..], Start));
    QuickSortRec(t, v, key, 0, a.Length - 1);
    t.Push(Finished(a[..]));
    steps := t.steps;
  }
}
