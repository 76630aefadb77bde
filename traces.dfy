/** The step record both visualisers append to their trace, and recursive
    summaries of a trace: how many steps carry a tag, the compared index
    pairs in order, whether every snapshot is a permutation of a given
    multiset, and whether every pivot announcement names a final position. */
module Traces {
  import opened Common

  /** The ranges a merge step highlights. */
  datatype MergeRanges = MergeRanges(left: seq<int>, right: seq<int>, merged: seq<int>)

  /** One recorded step: a copy of the array, the optional highlights and the
      tag standing for its narration. The number visualiser's step type has
      no `merging` field; its steps always leave it None. */
  datatype Step<T> = Step(
    snapshot: seq<T>,
    comparing: Option<seq<int>>,
    pivot: Option<int>,
    sorted: Option<seq<int>>,
    merging: Option<MergeRanges>,
    kind: StepKind)

  /** A step with nothing but a snapshot and its tag. */
  function Plain<T>(s: seq<T>, kind: StepKind): Step<T>
  {
    Step(s, None, None, None, None, kind)
  }

  /** A step highlighting the pair [x, y]. */
  function Comparing<T>(s: seq<T>, x: int, y: int): Step<T>
  {
    Step(s, Some([x, y]), None, None, None, Compare)
  }

  /** The step that closes every trace: all n indices are sorted. */
  function Finished<T>(s: seq<T>): Step<T>
  {
    Step(s, None, None, Some(Range(0, |s|)), None, Complete)
  }

  /** What a run of a generator helper leaves behind: the working array and
      the steps it recorded. */
  datatype Run<T> = Run(arr: seq<T>, steps: seq<Step<T>>)

  /** How many steps of ss carry the tag k. */
  function CountKind<T>(ss: seq<Step<T>>, k: StepKind): nat
  {
    if |ss| == 0 then 0
    else (if ss[0].kind == k then 1 else 0) + CountKind(ss[1..], k)
  }

  lemma {:induction false} CountKindConcat<T>(ss: seq<Step<T>>, tt: seq<Step<T>>, k: StepKind)
    ensures CountKind(ss + tt, k) == CountKind(ss, k) + CountKind(tt, k)
    decreases |ss|
  {
    if |ss| > 0 {
      assert (ss + tt)[1..] == ss[1..] + tt;
      CountKindConcat(ss[1..], tt, k);
    } else {
      assert ss + tt == tt;
    }
  }

  /** The `comparing` pairs of ss, in trace order. */
  function Comparisons<T>(ss: seq<Step<T>>): seq<seq<int>>
  {
    if |ss| == 0 then []
    else (if ss[0].comparing.Some? then [ss[0].comparing.value] else []) + Comparisons(ss[1..])
  }

  lemma {:induction false} ComparisonsConcat<T>(ss: seq<Step<T>>, tt: seq<Step<T>>)
    ensures Comparisons(ss + tt) == Comparisons(ss) + Comparisons(tt)
    decreases |ss|
  {
    if |ss| > 0 {
      assert (ss + tt)[1..] == ss[1..] + tt;
      ComparisonsConcat(ss[1..], tt);
    } else {
      assert ss + tt == tt;
    }
  }

  /** The summaries of a one-step trace. */
  lemma OneStep<T>(st: Step<T>, kd: StepKind, m: multiset<T>)
    ensures CountKind([st], kd) == (if st.kind == kd then 1 else 0)
    ensures Comparisons([st]) == (if st.comparing.Some? then [st.comparing.value] else [])
    ensures SnapshotsPerm([st], m) <==> multiset(st.snapshot) == m
  {
    assert [st][1..] == [];
  }

  /** CountKind of a trace framed by a first and a last step. */
  lemma EndsCount<T>(first: Step<T>, ss: seq<Step<T>>, last: Step<T>, kd: StepKind)
    ensures CountKind([first] + ss + [last], kd)
              == (if first.kind == kd then 1 else 0) + CountKind(ss, kd) + (if last.kind == kd then 1 else 0)
  {
    CountKindConcat([first], ss, kd);
    CountKindConcat([first] + ss, [last], kd);
    assert [first][1..] == [] && [last][1..] == [];
  }

  /** The comparisons of a trace framed by a first and a last step that
      compare nothing are those of the trace. */
  lemma EndsComparisons<T>(first: Step<T>, ss: seq<Step<T>>, last: Step<T>)
    requires first.comparing.None? && last.comparing.None?
    ensures Comparisons([first] + ss + [last]) == Comparisons(ss)
  {
    ComparisonsConcat([first], ss);
    ComparisonsConcat([first] + ss, [last]);
    assert [first][1..] == [] && [last][1..] == [];
    assert Comparisons([first]) == [] && Comparisons([last]) == [];
  }

  /** Every snapshot of ss is a permutation of m. */
  ghost predicate SnapshotsPerm<T>(ss: seq<Step<T>>, m: multiset<T>)
  {
    |ss| == 0 || (multiset(ss[0].snapshot) == m && SnapshotsPerm(ss[1..], m))
  }

  lemma {:induction false} SnapshotsPermConcat<T>(ss: seq<Step<T>>, tt: seq<Step<T>>, m: multiset<T>)
    requires SnapshotsPerm(ss, m) && SnapshotsPerm(tt, m)
    ensures SnapshotsPerm(ss + tt, m)
    decreases |ss|
  {
    if |ss| > 0 {
      assert (ss + tt)[1..] == ss[1..] + tt;
      SnapshotsPermConcat(ss[1..], tt, m);
    } else {
      assert ss + tt == tt;
    }
  }

  /** Reading the recursive summary back as a statement about each step. */
  lemma {:induction false} SnapshotsPermAt<T>(ss: seq<Step<T>>, m: multiset<T>, k: int)
    requires SnapshotsPerm(ss, m) && 0 <= k < |ss|
    ensures multiset(ss[k].snapshot) == m
    decreases k
  {
    if k > 0 {
      SnapshotsPermAt(ss[1..], m, k - 1);
    }
  }

  /** c is a pair of indices x < y, both inside [lo, hi]. */
  ghost predicate PairIn(c: seq<int>, lo: int, hi: int)
  {
    |c| == 2 && lo <= c[0] < c[1] <= hi
  }

  /** Every pair of cs lies inside [lo, hi]. */
  ghost predicate PairsIn(cs: seq<seq<int>>, lo: int, hi: int)
  {
    |cs| == 0 || (PairIn(cs[0], lo, hi) && PairsIn(cs[1..], lo, hi))
  }

  lemma {:induction false} PairsInConcat(cs: seq<seq<int>>, ds: seq<seq<int>>, lo: int, hi: int)
    requires PairsIn(cs, lo, hi) && PairsIn(ds, lo, hi)
    ensures PairsIn(cs + ds, lo, hi)
    decreases |cs|
  {
    if |cs| > 0 {
      assert (cs + ds)[1..] == cs[1..] + ds;
      PairsInConcat(cs[1..], ds, lo, hi);
    } else {
      assert cs + ds == ds;
    }
  }

  lemma {:induction false} PairsInWiden(cs: seq<seq<int>>, lo: int, hi: int, lo': int, hi': int)
    requires PairsIn(cs, lo, hi) && lo' <= lo && hi <= hi'
    ensures PairsIn(cs, lo', hi')
    decreases |cs|
  {
    if |cs| > 0 {
      PairsInWiden(cs[1..], lo, hi, lo', hi');
    }
  }

  /** Reading the recursive summary back as a statement about each pair. */
  lemma {:induction false} PairsInAt(cs: seq<seq<int>>, lo: int, hi: int, k: int)
    requires PairsIn(cs, lo, hi) && 0 <= k < |cs|
    ensures PairIn(cs[k], lo, hi)
    decreases k
  {
    if k > 0 {
      PairsInAt(cs[1..], lo, hi, k - 1);
    }
  }

  /** A pivot announcement names an index of [lo, hi] whose element is the
      one t holds there. Steps of other kinds are unconstrained. */
  ghost predicate FixedPivot<T>(st: Step<T>, t: seq<T>, lo: int, hi: int)
  {
    st.kind == PivotPlaced ==>
      && st.pivot.Some?
      && lo <= st.pivot.value <= hi
      && 0 <= st.pivot.value < |t|
      && st.pivot.value < |st.snapshot|
      && st.snapshot[st.pivot.value] == t[st.pivot.value]
  }

  ghost predicate PivotsFixed<T>(ss: seq<Step<T>>, t: seq<T>, lo: int, hi: int)
  {
    |ss| == 0 || (FixedPivot(ss[0], t, lo, hi) && PivotsFixed(ss[1..], t, lo, hi))
  }

  lemma {:induction false} PivotsFixedConcat<T>(ss: seq<Step<T>>, tt: seq<Step<T>>, t: seq<T>, lo: int, hi: int)
    requires PivotsFixed(ss, t, lo, hi) && PivotsFixed(tt, t, lo, hi)
    ensures PivotsFixed(ss + tt, t, lo, hi)
    decreases |ss|
  {
    if |ss| > 0 {
      assert (ss + tt)[1..] == ss[1..] + tt;
      PivotsFixedConcat(ss[1..], tt, t, lo, hi);
    } else {
      assert ss + tt == tt;
    }
  }

  /** Pivot positions stay fixed when t changes to t' only elsewhere, and the
      range may be widened. */
  lemma {:induction false} PivotsFixedTransfer<T>(ss: seq<Step<T>>, t: seq<T>, t': seq<T>,
                                                  lo: int, hi: int, x: int, y: int, lo': int, hi': int)
    requires PivotsFixed(ss, t, lo, hi)
    requires SameOutside(t', t, x, y) && (hi < x || y <= lo)
    requires lo' <= lo && hi <= hi'
    ensures PivotsFixed(ss, t', lo', hi')
    decreases |ss|
  {
    if |ss| > 0 {
      PivotsFixedTransfer(ss[1..], t, t', lo, hi, x, y, lo', hi');
    }
  }

  lemma {:induction false} PivotsFixedWiden<T>(ss: seq<Step<T>>, t: seq<T>, lo: int, hi: int, lo': int, hi': int)
    requires PivotsFixed(ss, t, lo, hi) && lo' <= lo && hi <= hi'
    ensures PivotsFixed(ss, t, lo', hi')
    decreases |ss|
  {
    if |ss| > 0 {
      PivotsFixedWiden(ss[1..], t, lo, hi, lo', hi');
    }
  }

  /** A trace without pivot announcements fixes nothing. */
  lemma {:induction false} PivotsFixedNone<T>(ss: seq<Step<T>>, t: seq<T>, lo: int, hi: int)
    requires CountKind(ss, PivotPlaced) == 0
    ensures PivotsFixed(ss, t, lo, hi)
    decreases |ss|
  {
    if |ss| > 0 {
      PivotsFixedNone(ss[1..], t, lo, hi);
    }
  }

  /** Reading the recursive summary back as a statement about each step. */
  lemma {:induction false} PivotsFixedAt<T>(ss: seq<Step<T>>, t: seq<T>, lo: int, hi: int, k: int)
    requires PivotsFixed(ss, t, lo, hi) && 0 <= k < |ss|
    ensures FixedPivot(ss[k], t, lo, hi)
    decreases k
  {
    if k > 0 {
      PivotsFixedAt(ss[1..], t, lo, hi, k - 1);
    }
  }

  /** The component a shared generator runs in: the record visualiser (fish
      by price) or the number visualiser (bars). The two copies of the
      quicksort and merge sort code differ in a few recorded steps. */
  datatype Visualiser = Records | Numbers

  /** The state the generators' nested helpers share: the working copy being
      sorted in place and the list of steps recorded so far. */
  class Tracer<T> {
    const a: array<T>
    var steps: seq<Step<T>>

    constructor (a: array<T>)
      ensures this.a == a && steps == []
    {
      this.a := a;
      steps := [];
    }

    /** Appending one step to the trace. */
    method Push(st: Step<T>)
      modifies this
      ensures steps == old(steps) + [st]
    {
      steps := steps + [st];
    }

    /** The destructuring swap of positions i and j. */
    method Exchange(i: int, j: int)
      requires 0 <= i < a.Length && 0 <= j < a.Length
      modifies a
      ensures a[..] == Swapped(old(a[..]), i, j)
    {
      a[i], a[j] := a[j], a[i];
    }

    /** Overwriting position k. */
    method Write(k: int, x: T)
      requires 0 <= k < a.Length
      modifies a
      ensures a[..] == old(a[..])[k := x]
    {
      a[k] := x;
    }
  }
}
