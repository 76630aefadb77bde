/** The bar visualiser: a list of numbers sorted with bubble sort, quicksort
    or merge sort, the resulting trace loaded into the playback cursor. */
module BarSortVisualizer {
  import opened Common
  import opened Traces
  import opened Playback
  import QuickSort
  import MergeSort
  import BubbleSort

  /** The three algorithms the component accepts; the switch in
      generateSteps covers each of them. */
  datatype Algorithm = Quicksort | Mergesort | Bubblesort

  /** The trace generateSteps installs for the chosen algorithm. */
  function Steps(algorithm: Algorithm, data: seq<int>): seq<Step<int>>
  {
    match algorithm
    case Quicksort => QuickSort.QuickSortSteps(Numbers, IntKey, data)
    case Mergesort => MergeSort.MergeSortSteps(Numbers, IntKey, data)
    case Bubblesort => BubbleSort.BubbleSortSteps(data)
  }

  /** The step getCurrentStep falls back to while no trace is loaded. */
  function ReadyStep(data: seq<int>): Step<int>
  {
    Plain(data, Ready)
  }

  /** Whichever algorithm is chosen, the trace opens on the input and closes
      on its numbers in ascending order with every index marked sorted; at
      most one number gives just these two steps. */
  lemma StepsEnds(algorithm: Algorithm, data: seq<int>)
    ensures var ss := Steps(algorithm, data);
      && |ss| >= 2
      && ss[0] == Plain(data, Start)
      && ss[|ss| - 1].kind == Complete
      && ss[|ss| - 1].sorted == Some(Range(0, |data|))
      && SortedBy(IntKey, ss[|ss| - 1].snapshot)
      && multiset(ss[|ss| - 1].snapshot) == multiset(data)
      && (|data| <= 1 <==> |ss| == 2)
  {
    match algorithm
    case Quicksort => QuickSort.QuickSortEnds(Numbers, IntKey, data);
    case Mergesort => MergeSort.MergeSortEnds(Numbers, IntKey, data);
    case Bubblesort => BubbleSort.BubbleSortEnds(data);
  }

  /** Every comparison any of the three algorithms records is a pair x < y
      of indices of the input. */
  lemma StepsCompares(algorithm: Algorithm, data: seq<int>)
    ensures PairsIn(Comparisons(Steps(algorithm, data)), 0, |data| - 1)
  {
    match algorithm
    case Quicksort => QuickSort.QuickSortCompares(Numbers, IntKey, data);
    case Mergesort => MergeSort.MergeSortCompareRange(Numbers, IntKey, data);
    case Bubblesort => BubbleSort.BubbleSortCompares(data);
  }

  /** Bubble sort and quicksort only exchange bars: every snapshot of their
      traces holds exactly the input's numbers. */
  lemma SwappingSnapshots(algorithm: Algorithm, data: seq<int>)
    requires algorithm != Mergesort
    ensures SnapshotsPerm(Steps(algorithm, data), multiset(data))
  {
    if algorithm == Quicksort {
      QuickSort.QuickSortSnapshots(Numbers, IntKey, data);
    } else {
      BubbleSort.BubbleSortSnapshots(data);
    }
  }

  /** With repeated values, quicksort still ends on [1, 2, 3, 3, 3] with all
      five indices marked sorted. */
  lemma QuicksortDuplicates()
    ensures var ss := Steps(Quicksort, [3, 1, 3, 2, 3]);
      ss[|ss| - 1].snapshot == [1, 2, 3, 3, 3] && ss[|ss| - 1].sorted == Some(Range(0, 5))
  {
    var ss := Steps(Quicksort, [3, 1, 3, 2, 3]);
    StepsEnds(Quicksort, [3, 1, 3, 2, 3]);
    OnlyAscending(ss[|ss| - 1].snapshot);
  }

  /** [1, 2, 3, 3, 3] is the one ascending order of 3, 1, 3, 2, 3. */
  lemma OnlyAscending(t: seq<int>)
    requires SortedBy(IntKey, t) && multiset(t) == multiset([3, 1, 3, 2, 3])
    ensures t == [1, 2, 3, 3, 3]
  {
    AscendingFive();
    SameFive();
    SortedUnique(t, [1, 2, 3, 3, 3]);
  }

  lemma AscendingFive()
    ensures SortedBy(IntKey, [1, 2, 3, 3, 3])
  {
  }

  lemma SameFive()
    ensures multiset([1, 2, 3, 3, 3]) == multiset([3, 1, 3, 2, 3])
  {
  }

  /** Two ascending orders of the same numbers are the same sequence. */
  lemma {:induction false} SortedUnique(s: seq<int>, t: seq<int>)
    requires SortedBy(IntKey, s) && SortedBy(IntKey, t) && multiset(s) == multiset(t)
    ensures s == t
    decreases |s|
  {
    assert |s| == |t| by {
      assert |multiset(s)| == |multiset(t)|;
    }
    if |s| > 0 {
      assert s[0] == t[0] by {
        LeastFirst(s, t);
        LeastFirst(t, s);
      }
      assert multiset(s[1..]) == multiset(t[1..]) by {
        HeadOff(s);
        HeadOff(t);
      }
      SortedUnique(s[1..], t[1..]);
      assert s == [s[0]] + s[1..] && t == [t[0]] + t[1..];
    }
  }

  /** An ascending sequence starts with the least of its numbers. */
  lemma LeastFirst(s: seq<int>, t: seq<int>)
    requires SortedBy(IntKey, t) && multiset(s) == multiset(t) && |s| > 0
    ensures |t| > 0 && t[0] <= s[0]
  {
    assert s[0] in multiset(t);
    var k :| 0 <= k < |t| && t[k] == s[0];
    assert IntKey(t[0]) <= IntKey(t[k]);
  }

  lemma HeadOff(s: seq<int>)
    requires |s| > 0
    ensures multiset(s[1..]) == multiset(s) - multiset{s[0]}
  {
    assert s == [s[0]] + s[1..];
  }

  /** generateSteps: runs the chosen generator on a copy of the input, so
      the caller's list is untouched, installs the trace and rewinds the
      cursor to its first step. */
  method GenerateSteps(player: Player<Step<int>>, algorithm: Algorithm, data: seq<int>)
    modifies player
    ensures player.Valid() && player.steps == Steps(algorithm, data) && player.currentStep == 0
    ensures player.isPlaying == old(player.isPlaying)
    ensures player.CurrentStep(ReadyStep(data)) == Plain(data, Start)
  {
    var trace;
    match algorithm {
      case Quicksort =>
        trace := QuickSort.GenerateQuickSortSteps(Numbers, IntKey, data);
      case Mergesort =>
        trace := MergeSort.GenerateMergeSortSteps(Numbers, IntKey, data);
      case Bubblesort =>
        trace := BubbleSort.GenerateBubbleSortSteps(data);
    }
    player.Load(trace);
    StepsEnds(algorithm, data);
  }
}
