/** Definitions shared by the two trace generators: optional step fields,
    the tag that stands for a step's narration, index ranges, and facts about
    sequences that agree outside a segment. */
module Common {

  datatype Option<T> = None | Some(value: T)

  /** What a step narrates. The generators attach a Portuguese sentence to
      every step; the model keeps only which kind of sentence it is. */
  datatype StepKind =
    | Ready          // fallback shown before any trace exists
    | Start          // "starting" announcement, first step of every trace
    | SelectPivot    // quicksort picks array[end]
    | Compare        // two positions are being compared
    | Swap           // two positions were exchanged
    | PlacePivot     // partition put the pivot at its final index
    | PivotPlaced    // the pivot's position is announced as correct
    | Divide         // merge sort splits a segment
    | MergeStart     // merge sort starts merging two halves
    | Placed         // merge wrote the winner of a comparison
    | CopyRemainder  // merge copied a leftover element
    | PassDone       // bubble sort finished one outer pass
    | Complete       // last step of every trace, all indices sorted

  /** The consecutive indices lo, lo + 1, ..., hi - 1. */
  function Range(lo: int, hi: int): (r: seq<int>)
    requires lo <= hi
    ensures |r| == hi - lo
    ensures forall i :: 0 <= i < |r| ==> r[i] == lo + i
  {
    seq(hi - lo, i => lo + i)
  }

  /** s with the elements at positions i and j exchanged. */
  function Swapped<T>(s: seq<T>, i: int, j: int): (r: seq<T>)
    requires 0 <= i < |s| && 0 <= j < |s|
    ensures |r| == |s|
  {
    s[i := s[j]][j := s[i]]
  }

  /** Exchanging two elements changes nothing else. */
  lemma SwappedFacts<T>(s: seq<T>, i: int, j: int)
    requires 0 <= i < |s| && 0 <= j < |s|
    ensures Swapped(s, i, j)[i] == s[j] && Swapped(s, i, j)[j] == s[i]
    ensures forall k :: 0 <= k < |s| && k != i && k != j ==> Swapped(s, i, j)[k] == s[k]
  {
  }

  /** Exchanging two elements permutes the sequence. */
  lemma SwappedPerm<T>(s: seq<T>, i: int, j: int)
    requires 0 <= i < |s| && 0 <= j < |s|
    ensures multiset(Swapped(s, i, j)) == multiset(s)
  {
  }

  /** Regrouping a chain of appends behind its first operand. */
  lemma AppendAssoc2<T>(a: seq<T>, b: seq<T>, c: seq<T>)
    ensures a + b + c == a + (b + c)
  {
  }

  /** Regrouping a chain of appends behind its first operand. */
  lemma AppendAssoc4<T>(a: seq<T>, b: seq<T>, c: seq<T>, d: seq<T>, e: seq<T>)
    ensures a + b + c + d + e == a + (b + c + d + e)
  {
  }

  /** Regrouping a chain of appends behind its first operand. */
  lemma AppendAssoc5<T>(a: seq<T>, b: seq<T>, c: seq<T>, d: seq<T>, e: seq<T>, f: seq<T>)
    ensures a + b + c + d + e + f == a + (b + c + d + e + f)
  {
  }

  /** s and t have the same length and agree at every index outside [lo, hi). */
  ghost predicate SameOutside<T>(s: seq<T>, t: seq<T>, lo: int, hi: int)
  {
    |s| == |t| && forall k :: 0 <= k < |s| && !(lo <= k < hi) ==> s[k] == t[k]
  }

  /** A segment [x, y) that lies outside [lo, hi) is the same in both sequences. */
  lemma SliceOutside<T>(s: seq<T>, t: seq<T>, lo: int, hi: int, x: int, y: int)
    requires SameOutside(s, t, lo, hi)
    requires 0 <= x <= y <= |s|
    requires y <= lo || hi <= x
    ensures s[x..y] == t[x..y]
  {
  }

  /** When two sequences agree outside [lo, hi), they are permutations of each
      other exactly when their [lo, hi) segments are. */
  lemma SegmentPerm<T>(s: seq<T>, t: seq<T>, lo: int, hi: int)
    requires SameOutside(s, t, lo, hi)
    requires 0 <= lo <= hi <= |s|
    ensures multiset(s) == multiset(t) <==> multiset(s[lo..hi]) == multiset(t[lo..hi])
  {
    SliceOutside(s, t, lo, hi, 0, lo);
    SliceOutside(s, t, lo, hi, hi, |s|);
    var pre, post := multiset(s[..lo]), multiset(s[hi..]);
    var m, m' := multiset(s[lo..hi]), multiset(t[lo..hi]);
    assert multiset(s) == pre + m + post by {
      MultisetParts(s, lo, hi);
    }
    assert multiset(t) == pre + m' + post by {
      MultisetParts(t, lo, hi);
      assert t[..lo] == s[..lo] && t[hi..] == s[hi..];
    }
    if multiset(s) == multiset(t) {
      forall x ensures m[x] == m'[x] {
        assert multiset(s)[x] == pre[x] + m[x] + post[x];
        assert multiset(t)[x] == pre[x] + m'[x] + post[x];
      }
      assert m == m';
    }
  }

  /** A sequence's multiset is the sum of those of its three parts around [lo, hi). */
  lemma MultisetParts<T>(s: seq<T>, lo: int, hi: int)
    requires 0 <= lo <= hi <= |s|
    ensures multiset(s) == multiset(s[..lo]) + multiset(s[lo..hi]) + multiset(s[hi..])
  {
    assert s == s[..lo] + s[lo..hi] + s[hi..];
  }

  /** Replacing the segment [lo, hi) of s by a permutation m of it: m is
      read back at [lo, hi), nothing else changes, and the whole sequence is
      permuted. */
  lemma Spliced<T>(s: seq<T>, arr: seq<T>, m: seq<T>, lo: int, hi: int)
    requires 0 <= lo <= hi <= |s| && |m| == hi - lo
    requires arr == s[..lo] + m + s[hi..] && multiset(m) == multiset(s[lo..hi])
    ensures arr[lo..hi] == m && SameOutside(arr, s, lo, hi) && multiset(arr) == multiset(s)
  {
    forall k | 0 <= k < |s| && !(lo <= k < hi) ensures arr[k] == s[k] {
      if k < lo {
        assert arr[k] == s[..lo][k];
      } else {
        assert arr[k] == s[hi..][k - hi];
      }
    }
    MultisetParts(s, lo, hi);
  }

  /** Agreement outside a segment is kept when the segment grows and composes
      across a sequence of changes. */
  lemma SameOutsideTrans<T>(r: seq<T>, s: seq<T>, t: seq<T>, lo1: int, hi1: int, lo2: int, hi2: int, lo: int, hi: int)
    requires SameOutside(r, s, lo1, hi1) && SameOutside(s, t, lo2, hi2)
    requires lo <= lo1 && hi1 <= hi && lo <= lo2 && hi2 <= hi
    ensures SameOutside(r, t, lo, hi)
  {
  }

  // Order by an integer key: a fish's price, a bar's own value.

  /** The key a bar is ordered by: its own value. */
  function IntKey(x: int): int
  {
    x
  }

  /** s is in non-decreasing key order. */
  ghost predicate SortedBy<T>(key: T -> int, s: seq<T>)
  {
    forall i, j :: 0 <= i < j < |s| ==> key(s[i]) <= key(s[j])
  }

  /** Positions [lo, hi) of s are in non-decreasing key order. */
  ghost predicate SortedRange<T>(key: T -> int, s: seq<T>, lo: int, hi: int)
  {
    forall i, j :: lo <= i < j < hi && 0 <= i && j < |s| ==> key(s[i]) <= key(s[j])
  }

  lemma SortedRangeSlice<T>(key: T -> int, s: seq<T>, lo: int, hi: int)
    requires 0 <= lo <= hi <= |s|
    ensures SortedRange(key, s, lo, hi) <==> SortedBy(key, s[lo..hi])
  {
    if SortedBy(key, s[lo..hi]) {
      forall i, j | lo <= i < j < hi ensures key(s[i]) <= key(s[j]) {
        assert s[i] == s[lo..hi][i - lo] && s[j] == s[lo..hi][j - lo];
      }
    }
  }

  /** How many elements of s have a key below x. */
  function CountBelow<T>(key: T -> int, s: seq<T>, x: int): nat
  {
    if |s| == 0 then 0
    else (if key(s[0]) < x then 1 else 0) + CountBelow(key, s[1..], x)
  }

  /** The length of the longest prefix of s whose keys are all below x. */
  function LeadBelow<T>(key: T -> int, s: seq<T>, x: int): nat
  {
    if |s| == 0 || x <= key(s[0]) then 0
    else 1 + LeadBelow(key, s[1..], x)
  }
}
