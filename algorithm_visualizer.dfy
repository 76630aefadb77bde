/** The fish visualiser: a list of fish records sorted by price with
    quicksort or merge sort, the resulting trace loaded into the playback
    cursor. */
module AlgorithmVisualizer {
  import opened Common
  import opened Traces
  import opened Playback
  import QuickSort
  import MergeSort

  /** A fish on sale: its name and its price. Prices are compared only with
      < and <=, so whole numbers stand in for them. */
  datatype Fish = Fish(name: string, price: int)

  /** Fish are ordered by price alone. */
  function Price(f: Fish): int
  {
    f.price
  }

  /** The two algorithms the component accepts. */
  datatype Algorithm = Quicksort | Mergesort

  /** The trace generateSteps installs: quicksort for Quicksort, merge sort
      for anything else. */
  function Steps(algorithm: Algorithm, data: seq<Fish>): seq<Step<Fish>>
  {
    if algorithm == Quicksort then QuickSort.QuickSortSteps(Records, Price, data)
    else MergeSort.MergeSortSteps(Records, Price, data)
  }

  /** The step getCurrentStep falls back to while no trace is loaded. */
  function ReadyStep(data: seq<Fish>): Step<Fish>
  {
    Plain(data, Ready)
  }

  /** Whichever algorithm is chosen, the trace opens on the input and closes
      on its fish in non-decreasing price order with every index marked
      sorted; at most one fish gives just these two steps. */
  lemma StepsEnds(algorithm: Algorithm, data: seq<Fish>)
    ensures var ss := Steps(algorithm, data);
      && |ss| >= 2
      && ss[0] == Plain(data, Start)
      && ss[|ss| - 1].kind == Complete
      && ss[|ss| - 1].sorted == Some(Range(0, |data|))
      && SortedBy(Price, ss[|ss| - 1].snapshot)
      && multiset(ss[|ss| - 1].snapshot) == multiset(data)
      && (|data| <= 1 <==> |ss| == 2)
  {
    if algorithm == Quicksort {
      QuickSort.QuickSortEnds(Records, Price, data);
    } else {
      MergeSort.MergeSortEnds(Records, Price, data);
    }
  }

  /** Every comparison either algorithm records is a pair x < y of indices
      of the input. */
  lemma StepsCompares(algorithm: Algorithm, data: seq<Fish>)
    ensures PairsIn(Comparisons(Steps(algorithm, data)), 0, |data| - 1)
  {
    if algorithm == Quicksort {
      QuickSort.QuickSortCompares(Records, Price, data);
    } else {
      MergeSort.MergeSortCompareRange(Records, Price, data);
    }
  }

  /** Quicksort only swaps fish: every one of its snapshots holds exactly
      the input's fish. */
  lemma QuicksortSnapshots(data: seq<Fish>)
    ensures SnapshotsPerm(Steps(Quicksort, data), multiset(data))
  {
    QuickSort.QuickSortSnapshots(Records, Price, data);
  }

  /** Merge sort is stable: fish of equal price end in their input order. */
  lemma MergesortStable(data: seq<Fish>, price: int)
    ensures var ss := Steps(Mergesort, data);
      MergeSort.WithKey(Price, ss[|ss| - 1].snapshot, price) == MergeSort.WithKey(Price, data, price)
  {
    MergeSort.MergeSortKeepsOrder(Records, Price, data, price);
  }

  /** Two fish at 5 and one at 3: merge sort puts the cheap one first and
      keeps the two at 5 in their input order. */
  lemma MergesortExample()
    ensures var a, b, c := Fish("A", 5), Fish("B", 5), Fish("C", 3);
      var ss := Steps(Mergesort, [a, b, c]);
      ss[|ss| - 1].snapshot == [c, a, b]
  {
    var a, b, c := Fish("A", 5), Fish("B", 5), Fish("C", 3);
    var ss := Steps(Mergesort, [a, b, c]);
    StepsEnds(Mergesort, [a, b, c]);
    MergesortStable([a, b, c], 5);
    WithKeyThree(a, b, c, 5);
    OnlyArrangement(ss[|ss| - 1].snapshot, a, b, c);
  }

  /** Of two fish at one price and a cheaper one, the only price-sorted
      arrangement that keeps a before b is c, a, b. */
  lemma OnlyArrangement(t: seq<Fish>, a: Fish, b: Fish, c: Fish)
    requires c.price < a.price == b.price
    requires multiset(t) == multiset([a, b, c]) && SortedBy(Price, t)
    requires MergeSort.WithKey(Price, t, a.price) == [a, b]
    ensures t == [c, a, b]
  {
    CheapestFirst(t, a, b, c);
    var x, y, z := t[0], t[1], t[2];
    assert t == [x, y, z];
    WithKeyThree(x, y, z, a.price);
  }

  /** Sorted by price, the three fish start with the cheaper one. */
  lemma CheapestFirst(t: seq<Fish>, a: Fish, b: Fish, c: Fish)
    requires c.price < a.price == b.price
    requires multiset(t) == multiset([a, b, c]) && SortedBy(Price, t)
    ensures |t| == 3 && t[0] == c && t[1].price == a.price && t[2].price == a.price
  {
    assert |t| == 3 by {
      assert |multiset(t)| == |multiset([a, b, c])|;
    }
    assert t == [t[0], t[1], t[2]];
    assert Price(t[0]) <= Price(t[1]) && Price(t[0]) <= Price(t[2]);
    CheapestOfThree(t[0], t[1], t[2], a, b, c);
  }

  /** The same fact on the three fish themselves. */
  lemma CheapestOfThree(x: Fish, y: Fish, z: Fish, a: Fish, b: Fish, c: Fish)
    requires c.price < a.price == b.price
    requires multiset{x, y, z} == multiset{a, b, c}
    requires x.price <= y.price && x.price <= z.price
    ensures x == c && y.price == a.price && z.price == a.price
  {
    assert x == c by {
      assert c in multiset{x, y, z};
      assert x in multiset{a, b, c};
    }
    assert multiset{y, z} == multiset{a, b} by {
      assert multiset{x, y, z} == multiset{c} + multiset{y, z};
      assert multiset{a, b, c} == multiset{c} + multiset{a, b};
    }
    assert y in multiset{a, b} && z in multiset{a, b};
  }

  /** The fish at price p among three, in their order. */
  lemma WithKeyThree(x: Fish, y: Fish, z: Fish, p: int)
    ensures MergeSort.WithKey(Price, [x, y, z], p)
      == (if x.price == p then [x] else []) + (if y.price == p then [y] else []) + (if z.price == p then [z] else [])
  {
    assert [x, y, z][1..] == [y, z] && [y, z][1..] == [z] && [z][1..] == [];
    assert MergeSort.WithKey(Price, [z], p) == (if z.price == p then [z] else []);
    assert MergeSort.WithKey(Price, [y, z], p) == (if y.price == p then [y] else []) + MergeSort.WithKey(Price, [z], p);
  }

  /** generateSteps: runs the chosen generator on a copy of the input, so
      the caller's list is untouched, installs the trace and rewinds the
      cursor to its first step. */
  method GenerateSteps(player: Player<Step<Fish>>, algorithm: Algorithm, data: seq<Fish>)
    modifies player
    ensures player.Valid() && player.steps == Steps(algorithm, data) && player.currentStep == 0
    ensures player.isPlaying == old(player.isPlaying)
    ensures player.CurrentStep(ReadyStep(data)) == Plain(data, Start)
  {
    var trace;
    if algorithm == Quicksort {
      trace := QuickSort.GenerateQuickSortSteps(Records, Price, data);
    } else {
      trace := MergeSort.GenerateMergeSortSteps(Records, Price, data);
    }
    player.Load(trace);
    StepsEnds(algorithm, data);
  }
}
