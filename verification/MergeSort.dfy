/** `merge_sort`: natural runs found from the back, extended by insertion, and merged through the
    stack of pending runs. */
module MergeSort {
  import opened Slices
  import opened Wrappers
  import opened Ordering
  import opened Insertion
  import opened Merging
  import opened InPlaceMerge
  import opened RunStack

  const MAX_INSERTION := 20
  const MIN_RUN := 10

  /** `t` is `s` with the elements of the window `lo..hi` in some other order. */
  ghost predicate Permuted<T>(s: seq<T>, t: seq<T>, lo: nat, hi: nat)
    requires lo <= hi <= |s|
  {
    OnlyWindow(s, t, lo, hi) && multiset(t[lo..hi]) == multiset(s[lo..hi])
  }

  /** The window of `t` is the window of `s`, sorted stably. */
  ghost predicate SortedStably<T(!new)>(less: (T, T) -> bool, s: seq<T>, t: seq<T>, lo: nat, hi: nat)
    requires lo <= hi <= |s| && |t| == |s|
  {
    Sorted(less, t[lo..hi]) && Stable(less, s[lo..hi], t[lo..hi])
  }

  lemma Widened<T>(a: seq<T>, w: seq<T>, w': seq<T>, z: seq<T>)
    requires multiset(w) == multiset(w')
    ensures multiset(a + w + z) == multiset(a + w' + z)
  {
    assert multiset(a + w + z) == multiset(a) + multiset(w) + multiset(z);
    assert multiset(a + w' + z) == multiset(a) + multiset(w') + multiset(z);
  }

  /** A wider window has the same borders around what was rearranged. */
  lemma Around<T>(s: seq<T>, t: seq<T>, lo: nat, hi: nat, lo': nat, hi': nat)
    requires lo' <= lo <= hi <= hi' <= |s| && OnlyWindow(s, t, lo, hi)
    ensures OnlyWindow(s, t, lo', hi')
    ensures s[lo'..hi'] == s[lo'..lo] + s[lo..hi] + s[hi..hi'] && t[lo'..hi'] == s[lo'..lo] + t[lo..hi] + s[hi..hi']
  {
    SameBelow(s, t, lo, lo', lo);
    SameBelow(s, t, lo, 0, lo');
    SameAbove(s, t, hi, hi, hi');
    SameFrom(s, t, hi, hi');
    Cut(s, lo', lo, hi);
    Cut(s, lo', hi, hi');
    Cut(t, lo', lo, hi);
    Cut(t, lo', hi, hi');
  }

  lemma PermutedWider<T>(s: seq<T>, t: seq<T>, lo: nat, hi: nat, lo': nat, hi': nat)
    requires lo' <= lo <= hi <= hi' <= |s| && Permuted(s, t, lo, hi)
    ensures Permuted(s, t, lo', hi')
  {
    hide OnlyWindow;
    Around(s, t, lo, hi, lo', hi');
    Widened(s[lo'..lo], s[lo..hi], t[lo..hi], s[hi..hi']);
  }

  lemma PermutedTransitive<T>(s: seq<T>, t: seq<T>, u: seq<T>, lo: nat, hi: nat)
    requires lo <= hi <= |s| && Permuted(s, t, lo, hi) && Permuted(t, u, lo, hi)
    ensures Permuted(s, u, lo, hi)
  {
  }

  lemma StableWider<T(!new)>(less: (T, T) -> bool, s: seq<T>, t: seq<T>, lo: nat, hi: nat, lo': nat, hi': nat)
    requires lo' <= lo <= hi <= hi' <= |s| && OnlyWindow(s, t, lo, hi) && Stable(less, s[lo..hi], t[lo..hi])
    ensures Stable(less, s[lo'..hi'], t[lo'..hi'])
  {
    hide OnlyWindow, Stable;
    Around(s, t, lo, hi, lo', hi');
    StableWindow(less, s[lo'..lo], s[lo..hi], t[lo..hi], s[hi..hi']);
  }

  // -----------------------------------------------------------------------------------------
  // Natural runs

  /** Each element is strictly below the one before it. */
  ghost predicate Descending<T>(less: (T, T) -> bool, s: seq<T>) {
    forall i :: 0 < i < |s| ==> less(s[i], s[i - 1])
  }

  ghost predicate NonDescending<T>(less: (T, T) -> bool, s: seq<T>) {
    forall i :: 0 < i < |s| ==> !less(s[i], s[i - 1])
  }

  /** The whole of `s` is one natural run. */
  ghost predicate OneRun<T>(less: (T, T) -> bool, s: seq<T>) {
    Descending(less, s) || NonDescending(less, s)
  }

  /** In a natural run all neighbours compare like the last two. */
  lemma RunAnswers<T>(less: (T, T) -> bool, s: seq<T>, k: nat)
    requires 0 < k < |s|
    ensures OneRun(less, s) ==> less(s[k], s[k - 1]) == less(s[|s| - 1], s[|s| - 2])
  {
  }

  lemma {:induction false} DescendingApart<T(!new)>(less: (T, T) -> bool, s: seq<T>, i: nat, j: nat)
    requires StrictWeakOrder(less) && Descending(less, s) && i < j < |s|
    ensures less(s[j], s[i])
    decreases j
  {
    assert less(s[j], s[j - 1]);
    if i < j - 1 { DescendingApart(less, s, i, j - 1); }
  }

  lemma {:induction false} NonDescendingSorted<T(!new)>(less: (T, T) -> bool, s: seq<T>)
    requires StrictWeakOrder(less) && NonDescending(less, s)
    ensures Sorted(less, s)
  {
    if |s| > 1 {
      var n := |s| - 1;
      NonDescendingSorted(less, s[..n]);
      forall i | 0 <= i < n
        ensures !less(s[n], s[i])
      {
        assert !less(s[n], s[n - 1]);
        assert i < n - 1 ==> !less(s[..n][n - 1], s[..n][i]);
      }
    }
  }

  lemma BelowHead<T(!new)>(less: (T, T) -> bool, s: seq<T>)
    requires StrictWeakOrder(less) && Descending(less, s) && s != []
    ensures forall y :: y in s[1..] ==> less(y, s[0])
  {
    forall y | y in s[1..]
      ensures less(y, s[0])
    {
      var j :| 0 <= j < |s| - 1 && s[1..][j] == y;
      DescendingApart(less, s, 0, j + 1);
    }
  }

  lemma {:induction false} ReverseStable<T(!new)>(less: (T, T) -> bool, g: T, s: seq<T>)
    requires StrictWeakOrder(less) && Descending(less, s)
    ensures Class(less, g, Reversed(s)) == Class(less, g, s)
  {
    hide Class;
    if s != [] {
      var x, t := s[0], s[1..];
      ReverseStable(less, g, t);
      ClassConcat(less, g, Reversed(t), [x]);
      ClassConcat(less, g, [x], t);
      assert s == [x] + t;
      BelowHead(less, s);
      ClassApart(less, g, x, t);
      Exchange(Class(less, g, t), Class(less, g, [x]), []);
    }
  }

  /** Reversing a strictly descending run sorts it, and moves no element past an equivalent one. */
  lemma ReverseCorrect<T(!new)>(less: (T, T) -> bool, s: seq<T>)
    requires StrictWeakOrder(less) && Descending(less, s)
    ensures Sorted(less, Reversed(s)) && Stable(less, s, Reversed(s))
  {
    var r := Reversed(s);
    forall i, j | 0 <= i < j < |r|
      ensures !less(r[j], r[i])
    {
      DescendingApart(less, s, |s| - 1 - j, |s| - 1 - i);
    }
    forall g
      ensures Class(less, g, s) == Class(less, g, r)
    {
      ReverseStable(less, g, s);
    }
  }

  lemma MirroredIsReversed<T>(s: seq<T>, t: seq<T>, lo: nat, hi: nat)
    requires lo <= hi <= |s| == |t|
    requires forall k :: 0 <= k < lo || hi <= k < |s| ==> t[k] == s[k]
    requires forall k :: lo <= k < hi ==> t[k] == s[lo + hi - 1 - k]
    ensures t == s[..lo] + Reversed(s[lo..hi]) + s[hi..]
  {
  }

  /** `v[lo..hi].reverse()` by swapping from both ends. */
  method ReverseWindow<T>(v: array<T>, lo: nat, hi: nat)
    requires lo <= hi <= v.Length
    modifies v
    ensures v[..] == old(v[..])[..lo] + Reversed(old(v[..])[lo..hi]) + old(v[..])[hi..]
  {
    hide Reversed;
    ghost var s := v[..];
    var i, j := lo, hi;
    while i + 1 < j
      invariant lo <= i <= j <= hi && i - lo == hi - j
      invariant forall k :: 0 <= k < lo || hi <= k < v.Length || i <= k < j ==> v[k] == s[k]
      invariant forall k :: lo <= k < i || j <= k < hi ==> v[k] == s[lo + hi - 1 - k]
    {
      v[i], v[j - 1] := v[j - 1], v[i];
      i, j := i + 1, j - 1;
    }
    MirroredIsReversed(s, v[..], lo, hi);
  }

  /** The answers of the walk say what the elements it passed are like. */
  lemma Walked<T>(less: (T, T) -> bool, s: seq<T>, start: nat, end: nat, down: bool)
    requires start + 2 <= end <= |s|
    requires forall k :: start < k <= end - 2 ==> less(s[k], s[k - 1]) == down
    ensures down && less(s[end - 1], s[end - 2]) ==> Descending(less, s[start..end])
    ensures !down && !less(s[end - 1], s[end - 2]) ==> NonDescending(less, s[start..end])
  {
    var w := s[start..end];
    assert forall i :: 0 <= i < |w| ==> w[i] == s[start + i];
  }

  /** Walks a run down from `start` while `v[start]` keeps comparing with `v[start - 1]` as `down`
      says: strictly below it, or not below it. */
  method WalkRun<T(!new)>(v: array<T>, end: nat, start0: nat, down: bool, cmp: Comparator<T>,
                          ghost less: (T, T) -> bool)
    returns (start: nat, panicked: bool)
    requires start0 + 2 == end <= v.Length
    requires !cmp.unwinding
    modifies cmp
    ensures start <= start0
    ensures old(cmp.calls) <= cmp.calls <= old(cmp.calls) + start0 - start + 1
    ensures cmp.Tells(panicked)
    ensures cmp.Implements(less) && !panicked ==>
              && (down && less(v[start0 + 1], v[start0]) ==> Descending(less, v[start..end]))
              && (!down && !less(v[start0 + 1], v[start0]) ==> NonDescending(less, v[start..end]))
    ensures && cmp.Implements(less) && !panicked && down == less(v[start0 + 1], v[start0])
            && OneRun(less, v[..end]) ==>
              start == 0 && cmp.calls == old(cmp.calls) + start0
  {
    hide OneRun;
    start, panicked := start0, false;
    while start > 0
      invariant start <= start0 && !panicked && cmp.Tells(false)
      invariant cmp.calls == old(cmp.calls) + start0 - start
      invariant cmp.Implements(less) ==>
                  forall k :: start < k <= start0 ==> less(v[k], v[k - 1]) == down
    {
      var r := cmp.IsLess(v[start], v[start - 1]);
      if r.Panic? {
        panicked := true;
        break;
      }
      if r.less != down {
        RunAnswers(less, v[..end], start);
        break;
      }
      start := start - 1;
    }
    if cmp.Implements(less) && !panicked {
      Walked(less, v[..], start, end, down);
      assert v[..][start..end] == v[start..end];
    }
  }

  lemma AtMostOne<T(!new)>(less: (T, T) -> bool, s: seq<T>, lo: nat, hi: nat)
    requires lo <= hi <= |s| && hi - lo <= 1
    ensures Permuted(s, s, lo, hi) && SortedStably(less, s, s, lo, hi)
  {
  }

  /** A descending run that was reversed, or any other run as it is. */
  lemma Turned<T(!new)>(less: (T, T) -> bool, s: seq<T>, t: seq<T>, lo: nat, hi: nat)
    requires lo <= hi <= |s| && t == s[..lo] + Reversed(s[lo..hi]) + s[hi..]
    ensures Permuted(s, t, lo, hi)
    ensures StrictWeakOrder(less) && Descending(less, s[lo..hi]) ==> SortedStably(less, s, t, lo, hi)
  {
    hide Reversed, StrictWeakOrder, Descending, Sorted, Stable;
    ReversedKeepsElements(s[lo..hi]);
    Patched(s, Reversed(s[lo..hi]), lo, hi, lo, hi);
    assert t[lo..hi] == Reversed(s[lo..hi]);
    if StrictWeakOrder(less) && Descending(less, s[lo..hi]) { ReverseCorrect(less, s[lo..hi]); }
  }

  lemma NotTurned<T(!new)>(less: (T, T) -> bool, s: seq<T>, lo: nat, hi: nat)
    requires lo <= hi <= |s|
    ensures Permuted(s, s, lo, hi)
    ensures StrictWeakOrder(less) && NonDescending(less, s[lo..hi]) ==> SortedStably(less, s, s, lo, hi)
  {
    if StrictWeakOrder(less) && NonDescending(less, s[lo..hi]) { NonDescendingSorted(less, s[lo..hi]); }
  }

  /** Finds the natural run that ends at `end`, reversing it if it is strictly descending. */
  method FindRun<T(!new)>(v: array<T>, end: nat, cmp: Comparator<T>, ghost less: (T, T) -> bool)
    returns (start: nat, panicked: bool)
    requires 0 < end <= v.Length
    requires !cmp.unwinding
    modifies v, cmp
    ensures start < end && Permuted(old(v[..]), v[..], start, end)
    ensures old(cmp.calls) <= cmp.calls <= old(cmp.calls) + end - start
    ensures cmp.Tells(panicked)
    ensures cmp.Implements(less) && !panicked && StrictWeakOrder(less) ==>
              SortedStably(less, old(v[..]), v[..], start, end)
    ensures cmp.Implements(less) && !panicked && OneRun(less, old(v[..end])) ==>
              start == 0 && cmp.calls == old(cmp.calls) + end - 1
  {
    hide Permuted, SortedStably, StrictWeakOrder, Descending, NonDescending, OneRun;
    ghost var s := v[..];
    start, panicked := end - 1, false;
    if start == 0 {
      AtMostOne(less, s, 0, end);
      return;
    }
    start := start - 1;
    NotTurned(less, s, start, end);
    var r := cmp.IsLess(v[start + 1], v[start]);
    if r.Panic? {
      panicked := true;
      return;
    }
    start, panicked := WalkRun(v, end, start, r.less, cmp, less);
    assert s[start..end] == v[start..end];
    if r.less && !panicked {
      ReverseWindow(v, start, end);
      Turned(less, s, v[..], start, end);
    } else {
      NotTurned(less, s, start, end);
    }
  }

  /** One insertion in front of a sorted window keeps the larger window sorted stably. */
  lemma InsertWindow<T(!new)>(less: (T, T) -> bool, s: seq<T>, t: seq<T>, u: seq<T>, lo: nat, mid: nat, hi: nat)
    requires lo < mid <= hi <= |s| && StrictWeakOrder(less)
    requires OnlyWindow(s, t, mid, hi) && SortedStably(less, s, t, mid, hi)
    requires |u| == |s| && u[lo..hi] == Insert(less, t[lo], t[lo + 1..hi]) && mid == lo + 1
    ensures SortedStably(less, s, u, lo, hi)
  {
    InsertCorrect(less, t[lo], t[mid..hi]);
    assert [t[lo]] + t[mid..hi] == t[lo..hi];
    StableWider(less, s, t, mid, hi, lo, hi);
    StableTransitive(less, s[lo..hi], t[lo..hi], u[lo..hi]);
  }

  /** One step of insertion sort on `v[lo..hi]`, whose tail is already sorted. */
  method InsertOne<T(!new)>(v: array<T>, lo: nat, hi: nat, ghost s: seq<T>, cmp: Comparator<T>,
                            ghost less: (T, T) -> bool)
    returns (panicked: bool)
    requires lo < hi <= v.Length == |s| && Permuted(s, v[..], lo + 1, hi)
    requires cmp.Implements(less) && StrictWeakOrder(less) ==> SortedStably(less, s, v[..], lo + 1, hi)
    requires !cmp.unwinding
    modifies v, cmp
    ensures Permuted(s, v[..], lo, hi)
    ensures old(cmp.calls) <= cmp.calls < old(cmp.calls) + hi - lo
    ensures cmp.Tells(panicked)
    ensures cmp.Implements(less) && !panicked && StrictWeakOrder(less) ==> SortedStably(less, s, v[..], lo, hi)
    ensures cmp.Implements(less) && !panicked && lo + 1 < hi && !less(old(v[lo + 1]), old(v[lo])) ==>
              v[..] == old(v[..]) && cmp.calls == old(cmp.calls) + 1
  {
    hide StrictWeakOrder, Insert, Sorted, Stable;
    ghost var t := v[..];
    PermutedWider(s, t, lo + 1, hi, lo, hi);
    panicked := InsertHead(v, lo, hi, cmp, less);
    assert Permuted(t, v[..], lo, hi) by { assert v[lo..hi] == v[..][lo..hi] && t[lo..hi] == old(v[lo..hi]); }
    PermutedTransitive(s, t, v[..], lo, hi);
    if cmp.Implements(less) && !panicked && StrictWeakOrder(less) {
      assert v[lo..hi] == v[..][lo..hi] && old(v[lo + 1..hi]) == t[lo + 1..hi];
      InsertWindow(less, s, t, v[..], lo, lo + 1, hi);
    }
  }

  /** Extends a short run to `MIN_RUN` elements by insertion, as far as the slice goes. */
  method ExtendRun<T(!new)>(v: array<T>, start0: nat, end: nat, ghost s: seq<T>, cmp: Comparator<T>,
                            ghost less: (T, T) -> bool)
    returns (start: nat, panicked: bool)
    requires start0 < end <= v.Length == |s| && Permuted(s, v[..], start0, end)
    requires cmp.Implements(less) && StrictWeakOrder(less) ==> SortedStably(less, s, v[..], start0, end)
    requires !cmp.unwinding
    modifies v, cmp
    ensures start <= start0 && Permuted(s, v[..], start, end)
    ensures old(cmp.calls) <= cmp.calls <= old(cmp.calls) + 9 * (start0 - start)
    ensures !panicked ==> start == 0 || end - start >= MIN_RUN
    ensures cmp.Tells(panicked)
    ensures cmp.Implements(less) && !panicked && StrictWeakOrder(less) ==> SortedStably(less, s, v[..], start, end)
  {
    hide SortedStably, Permuted, StrictWeakOrder;
    start, panicked := start0, false;
    while start > 0 && end - start < MIN_RUN && !panicked
      invariant start <= start0 && Permuted(s, v[..], start, end)
      invariant old(cmp.calls) <= cmp.calls <= old(cmp.calls) + 9 * (start0 - start)
      invariant cmp.Tells(panicked)
      invariant cmp.Implements(less) && !panicked && StrictWeakOrder(less) ==> SortedStably(less, s, v[..], start, end)
      decreases !panicked, start
    {
      panicked := InsertOne(v, start - 1, end, s, cmp, less);
      start := start - 1;
    }
  }

  /** The next run in front of `end`: found, reversed if need be, and extended. */
  method NextRun<T(!new)>(v: array<T>, end: nat, cmp: Comparator<T>, ghost less: (T, T) -> bool)
    returns (start: nat, panicked: bool)
    requires 0 < end <= v.Length
    requires !cmp.unwinding
    modifies v, cmp
    ensures start < end && Permuted(old(v[..]), v[..], start, end)
    ensures old(cmp.calls) <= cmp.calls <= old(cmp.calls) + 9 * (end - start)
    ensures !panicked ==> start == 0 || end - start >= 10
    ensures cmp.Tells(panicked)
    ensures cmp.Implements(less) && !panicked && StrictWeakOrder(less) ==>
              SortedStably(less, old(v[..]), v[..], start, end)
    ensures cmp.Implements(less) && !panicked && OneRun(less, old(v[..end])) ==>
              start == 0 && cmp.calls == old(cmp.calls) + end - 1
  {
    hide SortedStably, Permuted, StrictWeakOrder, OneRun;
    ghost var s := v[..];
    start, panicked := FindRun(v, end, cmp, less);
    if !panicked {
      start, panicked := ExtendRun(v, start, end, s, cmp, less);
    }
  }

  // -----------------------------------------------------------------------------------------
  // The stack of runs over the slice

  /** The runs cover `end..len` without gap or overlap, the first run of the stack last. */
  ghost predicate Tiled(runs: seq<Run>, end: nat, len: nat) {
    && NonEmptyRuns(runs)
    && (runs == [] ==> end == len)
    && (runs != [] ==> runs[0].start + runs[0].len == len && runs[|runs| - 1].start == end)
    && (forall i :: 0 < i < |runs| ==> runs[i].start + runs[i].len == runs[i - 1].start)
  }

  ghost predicate AllSorted<T>(less: (T, T) -> bool, s: seq<T>, runs: seq<Run>) {
    forall i :: 0 <= i < |runs| ==>
      runs[i].start + runs[i].len <= |s| && Sorted(less, s[runs[i].start..runs[i].start + runs[i].len])
  }

  lemma {:induction false} TiledOrder(runs: seq<Run>, end: nat, len: nat, i: nat, j: nat)
    requires Tiled(runs, end, len) && i < j < |runs|
    ensures runs[j].start + runs[j].len <= runs[i].start
    decreases j
  {
    if i < j - 1 { TiledOrder(runs, end, len, i, j - 1); }
  }

  lemma TiledWithin(runs: seq<Run>, end: nat, len: nat, i: nat)
    requires Tiled(runs, end, len) && i < |runs|
    ensures end <= runs[i].start && runs[i].start + runs[i].len <= len
  {
    if i > 0 { TiledOrder(runs, end, len, 0, i); }
    if i < |runs| - 1 { TiledOrder(runs, end, len, i, |runs| - 1); }
  }

  lemma {:induction false} TiledTotal(runs: seq<Run>, end: nat, len: nat)
    requires Tiled(runs, end, len)
    ensures TotalLen(runs) == len - end
    decreases |runs|
  {
    var n := |runs|;
    if n == 1 {
      assert TotalLen(runs[..0]) == 0;
    } else if n > 1 {
      TiledTotal(runs[..n - 1], runs[n - 2].start, len);
    }
  }

  lemma TiledPush(runs: seq<Run>, end: nat, len: nat, start: nat)
    requires Tiled(runs, end, len) && start < end
    ensures Tiled(runs + [Run(start, end - start)], start, len)
  {
  }

  lemma TiledMerge(runs: seq<Run>, end: nat, len: nat, r: nat)
    requires Tiled(runs, end, len) && r + 1 < |runs|
    ensures Tiled(MergePair(runs, r), end, len)
  {
  }

  /** Sorted runs stay sorted under a change that only touches another part of the slice. */
  lemma SortedElsewhere<T>(less: (T, T) -> bool, s: seq<T>, t: seq<T>, lo: nat, hi: nat, run: Run)
    requires lo <= hi <= |s| && OnlyWindow(s, t, lo, hi)
    requires run.start + run.len <= lo || (hi <= run.start && run.start + run.len <= |s|)
    ensures t[run.start..run.start + run.len] == s[run.start..run.start + run.len]
  {
    var a, b := run.start, run.start + run.len;
    if b <= lo {
      SameBelow(s, t, lo, a, b);
    } else {
      SameAbove(s, t, hi, a, b);
    }
  }

  lemma TiledPair(runs: seq<Run>, end: nat, len: nat, r: nat)
    requires Tiled(runs, end, len) && r + 1 < |runs|
    ensures runs[r + 1].start + runs[r + 1].len == runs[r].start
  {
  }

  lemma PairAt(runs: seq<Run>, r: nat, i: nat)
    requires r + 1 < |runs| && i + 1 < |runs|
    ensures var m := MergePair(runs, r);
            m[i] == if i < r then runs[i] else if i > r then runs[i + 1]
                    else Run(runs[r + 1].start, runs[r + 1].len + runs[r].len)
  {
  }

  /** A run other than the merged pair is where it was. */
  lemma OtherRun<T>(less: (T, T) -> bool, s: seq<T>, t: seq<T>, runs: seq<Run>, end: nat, r: nat, i: nat)
    requires Tiled(runs, end, |s|) && r + 1 < |runs| && i < |runs| && i != r && i != r + 1 && AllSorted(less, s, runs)
    requires var lo, hi := runs[r + 1].start, runs[r].start + runs[r].len;
             lo <= hi <= |s| && OnlyWindow(s, t, lo, hi)
    ensures runs[i].start + runs[i].len <= |t| && Sorted(less, t[runs[i].start..runs[i].start + runs[i].len])
  {
    hide Sorted, Tiled;
    var lo, hi := runs[r + 1].start, runs[r].start + runs[r].len;
    if i < r { TiledOrder(runs, end, |s|, i, r); } else { TiledOrder(runs, end, |s|, r + 1, i); }
    SortedElsewhere(less, s, t, lo, hi, runs[i]);
  }

  lemma AllSortedMerge<T(!new)>(less: (T, T) -> bool, s: seq<T>, t: seq<T>, runs: seq<Run>, end: nat, r: nat)
    requires Tiled(runs, end, |s|) && r + 1 < |runs| && StrictWeakOrder(less) && AllSorted(less, s, runs)
    requires var lo, hi := runs[r + 1].start, runs[r].start + runs[r].len;
             && lo <= hi <= |s| && OnlyWindow(s, t, lo, hi) && Sorted(less, t[lo..hi])
    ensures AllSorted(less, t, MergePair(runs, r))
  {
    hide Sorted, Tiled, MergePair, StrictWeakOrder;
    var m := MergePair(runs, r);
    TiledPair(runs, end, |s|, r);
    forall i | 0 <= i < |m|
      ensures m[i].start + m[i].len <= |t| && Sorted(less, t[m[i].start..m[i].start + m[i].len])
    {
      PairAt(runs, r, i);
      if i != r { OtherRun(less, s, t, runs, end, r, if i < r then i else i + 1); }
    }
  }

  lemma AllSortedPush<T(!new)>(less: (T, T) -> bool, s: seq<T>, t: seq<T>, runs: seq<Run>, start: nat, end: nat)
    requires Tiled(runs, end, |s|) && start < end <= |s| && AllSorted(less, s, runs)
    requires OnlyWindow(s, t, start, end) && Sorted(less, t[start..end])
    ensures AllSorted(less, t, runs + [Run(start, end - start)])
  {
    var p := runs + [Run(start, end - start)];
    forall i | 0 <= i < |p|
      ensures p[i].start + p[i].len <= |t| && Sorted(less, t[p[i].start..p[i].start + p[i].len])
    {
      if i < |runs| {
        TiledWithin(runs, end, |s|, i);
        SortedElsewhere(less, s, t, start, end, runs[i]);
      }
    }
  }

  lemma MergedWindow<T(!new)>(less: (T, T) -> bool, s: seq<T>, t: seq<T>, lo: nat, mid: nat, hi: nat)
    requires lo <= mid <= hi <= |s| == |t| && StrictWeakOrder(less)
    requires Sorted(less, s[lo..mid]) && Sorted(less, s[mid..hi])
    requires t[lo..hi] == StableMerge(less, s[lo..mid], s[mid..hi])
    ensures SortedStably(less, s, t, lo, hi)
  {
    MergeCorrect(less, s[lo..mid], s[mid..hi]);
    assert s[lo..hi] == s[lo..mid] + s[mid..hi];
  }

  /** Two neighbouring runs are two adjacent windows, and half the slice holds the shorter one. */
  lemma PairWindows(runs: seq<Run>, end: nat, len: nat, r: nat)
    requires Tiled(runs, end, len) && r + 1 < |runs|
    ensures var lo, mid, hi := runs[r + 1].start, runs[r].start, runs[r].start + runs[r].len;
            && end <= lo < mid < hi <= len && mid == lo + runs[r + 1].len
            && (mid - lo <= len / 2 || hi - mid <= len / 2)
  {
    TiledWithin(runs, end, len, r);
    TiledWithin(runs, end, len, r + 1);
  }

  lemma PairSorted<T>(less: (T, T) -> bool, s: seq<T>, runs: seq<Run>, r: nat, mid: nat)
    requires r + 1 < |runs| && AllSorted(less, s, runs) && mid == runs[r].start == runs[r + 1].start + runs[r + 1].len
    ensures runs[r].start + runs[r].len <= |s|
    ensures Sorted(less, s[runs[r + 1].start..mid]) && Sorted(less, s[mid..runs[r].start + runs[r].len])
  {
  }

  lemma OnlyLength<T>(s: seq<T>, t: seq<T>, lo: nat, hi: nat)
    requires lo <= hi <= |s| && OnlyWindow(s, t, lo, hi)
    ensures |t| == |s|
  {
  }

  /** What merging a pair of sorted runs makes of the slice and of the stack. */
  lemma MergeRunsStable<T(!new)>(less: (T, T) -> bool, s: seq<T>, t: seq<T>, runs: seq<Run>, end: nat, r: nat)
    requires Tiled(runs, end, |s|) && r + 1 < |runs| && StrictWeakOrder(less) && AllSorted(less, s, runs)
    requires var lo, mid, hi := runs[r + 1].start, runs[r].start, runs[r].start + runs[r].len;
             && lo <= mid <= hi <= |s| && end <= lo && OnlyWindow(s, t, lo, hi)
             && t[lo..hi] == StableMerge(less, s[lo..mid], s[mid..hi])
    ensures AllSorted(less, t, MergePair(runs, r))
    ensures Stable(less, s[end..|s|], t[end..|s|])
  {
    hide Sorted, Stable, StrictWeakOrder, Tiled, MergePair, StableMerge, OnlyWindow;
    var lo, mid, hi := runs[r + 1].start, runs[r].start, runs[r].start + runs[r].len;
    TiledPair(runs, end, |s|, r);
    PairSorted(less, s, runs, r, mid);
    OnlyLength(s, t, lo, hi);
    MergedWindow(less, s, t, lo, mid, hi);
    AllSortedMerge(less, s, t, runs, end, r);
    StableWider(less, s, t, lo, hi, end, |s|);
  }

  /** Merges `runs[r + 1]` with `runs[r]` in the slice. */
  method MergeRuns<T(!new)>(v: array<T>, runs: seq<Run>, r: nat, buf: array<T>, ghost end: nat, cmp: Comparator<T>,
                            ghost less: (T, T) -> bool)
    returns (panicked: bool)
    requires Tiled(runs, end, v.Length) && r + 1 < |runs| && v != buf && buf.Length == v.Length / 2
    requires !cmp.unwinding
    modifies v, buf, cmp
    ensures end <= v.Length && Permuted(old(v[..]), v[..], end, v.Length)
    ensures old(cmp.calls) <= cmp.calls <= old(cmp.calls) + runs[r].len + runs[r + 1].len
    ensures cmp.Tells(panicked)
    ensures cmp.Implements(less) && !panicked && StrictWeakOrder(less) && AllSorted(less, old(v[..]), runs) ==>
              && AllSorted(less, v[..], MergePair(runs, r))
              && Stable(less, old(v[..])[end..v.Length], v[..][end..v.Length])
  {
    hide StrictWeakOrder, StableMerge, Sorted, Stable, MergePair, AllSorted, Tiled;
    ghost var s := v[..];
    var left, right := runs[r + 1], runs[r];
    PairWindows(runs, end, v.Length, r);
    var lo, mid, hi := left.start, right.start, right.start + right.len;
    panicked := Merge(v, lo, mid, hi, buf, cmp, less);
    PermutedWider(s, v[..], lo, hi, end, v.Length);
    if cmp.Implements(less) && !panicked && StrictWeakOrder(less) && AllSorted(less, s, runs) {
      PairSorted(less, s, runs, r, mid);
      MergeRunsStable(less, s, v[..], runs, end, r);
    }
  }

  /** Merges pairs of runs until the rule asks for no more.  The comparisons spent are covered by
      the weight the stack loses, up to the credit of a stack that is one finished run. */
  method CollapseRuns<T(!new)>(v: array<T>, runs0: seq<Run>, buf: array<T>, ghost end: nat, cmp: Comparator<T>,
                               ghost less: (T, T) -> bool)
    returns (runs: seq<Run>, panicked: bool)
    requires runs0 != [] && Tiled(runs0, end, v.Length) && NearlyBalanced(runs0)
    requires v != buf && buf.Length == v.Length / 2
    requires !cmp.unwinding
    modifies v, buf, cmp
    ensures runs != [] && Tiled(runs, end, v.Length)
    ensures !panicked ==> Collapse(runs) == None && Balanced(runs)
    ensures end <= v.Length && Permuted(old(v[..]), v[..], end, v.Length)
    ensures cmp.calls + 3 * Weight(runs) + Credit(runs0) <= old(cmp.calls) + 3 * Weight(runs0) + Credit(runs)
    ensures |runs0| == 1 ==> cmp.calls == old(cmp.calls) && !panicked
    ensures cmp.Tells(panicked)
    ensures cmp.Implements(less) && !panicked && StrictWeakOrder(less) && AllSorted(less, old(v[..]), runs0) ==>
              && AllSorted(less, v[..], runs)
              && Stable(less, old(v[..])[end..v.Length], v[..][end..v.Length])
  {
    hide StrictWeakOrder, Stable, MergePair, AllSorted, Tiled, Permuted, NearlyBalanced, Balanced, Weight, Credit,
         Collapse;
    ghost var s := v[..];
    TiledEnd(runs0, end, v.Length);
    assert Permuted(s, s, end, v.Length) by { PermutedRefl(s, end, v.Length); }
    assert Stable(less, s[end..v.Length], s[end..v.Length]) by { StableRefl(less, s[end..v.Length]); }
    runs, panicked := runs0, false;
    while !panicked && Collapse(runs).Some?
      invariant runs != [] && Tiled(runs, end, v.Length) && NearlyBalanced(runs)
      invariant Permuted(s, v[..], end, v.Length)
      invariant cmp.calls + 3 * Weight(runs) + Credit(runs0) <= old(cmp.calls) + 3 * Weight(runs0) + Credit(runs)
      invariant |runs0| == 1 ==> runs == runs0 && cmp.calls == old(cmp.calls) && !panicked
      invariant cmp.Tells(panicked)
      invariant cmp.Implements(less) && !panicked && StrictWeakOrder(less) && AllSorted(less, s, runs0) ==>
                  && AllSorted(less, v[..], runs)
                  && Stable(less, s[end..v.Length], v[..][end..v.Length])
      decreases |runs|
    {
      ghost var t := v[..];
      var r := Collapse(runs).value;
      panicked := MergeRuns(v, runs, r, buf, end, cmp, less);
      TiledMerge(runs, end, v.Length, r);
      MergeKeepsNearly(runs);
      MergeIsPaid(runs);
      PermutedTransitive(s, t, v[..], end, v.Length);
      if cmp.Implements(less) && !panicked && StrictWeakOrder(less) && AllSorted(less, s, runs0) {
        StableTransitive(less, s[end..v.Length], t[end..v.Length], v[..][end..v.Length]);
      }
      runs := MergePair(runs, r);
    }
    if !panicked { NoneMeansBalanced(runs); }
  }

  lemma TiledEnd(runs: seq<Run>, end: nat, len: nat)
    requires Tiled(runs, end, len)
    ensures end <= len
  {
    if runs != [] { TiledWithin(runs, end, len, 0); }
  }

  lemma PermutedRefl<T>(s: seq<T>, lo: nat, hi: nat)
    requires lo <= hi <= |s|
    ensures Permuted(s, s, lo, hi)
  {
  }

  lemma StableRefl<T(!new)>(less: (T, T) -> bool, s: seq<T>)
    ensures Stable(less, s, s)
  {
  }

  // -----------------------------------------------------------------------------------------
  // The sort

  /** A bound on the comparisons of any run of the sort: O(n log n). */
  ghost function CallBound(len: nat): nat {
    len * (6 * Log2(len + 1) + 17)
  }

  /** Slices of up to `MAX_INSERTION` elements, sorted by insertion. */
  method ShortSort<T(!new)>(v: array<T>, cmp: Comparator<T>, ghost less: (T, T) -> bool)
    returns (panicked: bool)
    requires v.Length <= MAX_INSERTION
    requires !cmp.unwinding
    modifies v, cmp
    ensures Permuted(old(v[..]), v[..], 0, v.Length)
    ensures old(cmp.calls) <= cmp.calls <= old(cmp.calls) + 17 * v.Length
    ensures cmp.Tells(panicked)
    ensures cmp.Implements(less) && !panicked && StrictWeakOrder(less) ==>
              SortedStably(less, old(v[..]), v[..], 0, v.Length)
    ensures cmp.Implements(less) && !panicked && v.Length > 0 && NonDescending(less, old(v[..])) ==>
              cmp.calls == old(cmp.calls) + v.Length - 1
  {
    hide SortedStably, Permuted, StrictWeakOrder, Triangle, NonDescending;
    var len := v.Length;
    ghost var s := v[..];
    panicked := false;
    if len < 2 {
      AtMostOne(less, s, 0, len);
      return;
    }
    AtMostOne(less, s, len - 1, len);
    assert Triangle(1) >= 0;
    var i := len - 1;
    while i > 0 && !panicked
      invariant 0 <= i < len
      invariant Permuted(s, v[..], i, len)
      invariant old(cmp.calls) <= cmp.calls <= old(cmp.calls) + Triangle(len - i)
      invariant cmp.Tells(panicked)
      invariant cmp.Implements(less) && !panicked && StrictWeakOrder(less) ==> SortedStably(less, s, v[..], i, len)
      invariant cmp.Implements(less) && !panicked && NonDescending(less, s) ==>
                  v[..] == s && cmp.calls == old(cmp.calls) + len - 1 - i
      decreases !panicked, i
    {
      i := i - 1;
      NonDescendingAt(less, s, i + 1);
      panicked := InsertOne(v, i, len, s, cmp, less);
      TriangleStep(len - i);
    }
    TriangleBound(len - i);
    PermutedWider(s, v[..], i, len, 0, len);
  }

  lemma NonDescendingAt<T>(less: (T, T) -> bool, s: seq<T>, k: nat)
    requires 0 < k < |s|
    ensures NonDescending(less, s) ==> !less(s[k], s[k - 1])
  {
  }

  lemma TriangleStep(n: nat)
    requires n > 0
    ensures Triangle(n) == Triangle(n - 1) + n - 1
  {
  }

  /** 0 + 1 + ... + (n - 1). */
  ghost function Triangle(n: nat): nat {
    if n == 0 then 0 else Triangle(n - 1) + n - 1
  }

  lemma {:induction false} TriangleClosed(n: nat)
    ensures 2 * Triangle(n) == n * (n - 1)
  {
    if n > 0 { TriangleClosed(n - 1); }
  }

  lemma AtMostTwenty(n: nat)
    requires n <= MAX_INSERTION
    ensures n * (n - 1) <= 20 * n
  {
    assert n * (20 - (n - 1)) >= 0;
  }

  lemma TriangleBound(n: nat)
    requires n <= MAX_INSERTION
    ensures Triangle(n) <= 10 * n
  {
    TriangleClosed(n);
    AtMostTwenty(n);
  }

  /** What holds of the slice and the stack between two runs. */
  ghost predicate Progress<T(!new)>(less: (T, T) -> bool, s: seq<T>, t: seq<T>, runs: seq<Run>, end: nat) {
    && |t| == |s| && end <= |s|
    && AllSorted(less, t, runs) && Stable(less, s[end..|s|], t[end..|s|])
  }

  lemma ProgressPush<T(!new)>(less: (T, T) -> bool, s: seq<T>, t: seq<T>, u: seq<T>, runs: seq<Run>, start: nat,
                              end: nat)
    requires Progress(less, s, t, runs, end) && Tiled(runs, end, |s|) && start < end
    requires Permuted(s, t, end, |s|) && Permuted(t, u, start, end) && SortedStably(less, t, u, start, end)
    ensures Progress(less, s, u, runs + [Run(start, end - start)], start)
  {
    AllSortedPush(less, t, u, runs, start, end);
    StableWider(less, s, t, end, |s|, start, |s|);
    StableWider(less, t, u, start, end, start, |s|);
    StableTransitive(less, s[start..|s|], t[start..|s|], u[start..|s|]);
  }

  lemma PermutedGrow<T>(s: seq<T>, t: seq<T>, u: seq<T>, start: nat, end: nat)
    requires start <= end <= |s| && Permuted(s, t, end, |s|) && Permuted(t, u, start, end)
    ensures Permuted(s, u, start, |s|)
  {
    PermutedWider(s, t, end, |s|, start, |s|);
    PermutedWider(t, u, start, end, start, |s|);
    PermutedTransitive(s, t, u, start, |s|);
  }

  /** A stack that wants no merge although its top run starts the slice is one run over all of it. */
  lemma OneRunLeft<T>(less: (T, T) -> bool, t: seq<T>, runs: seq<Run>)
    requires runs != [] && Tiled(runs, 0, |t|) && Collapse(runs) == None
    ensures runs == [Run(0, |t|)]
    ensures AllSorted(less, t, runs) ==> Sorted(less, t)
  {
  }

  ghost function Height(len: nat): nat {
    2 * (Log2(len + 1) + 1)
  }

  /** What every element may cost: three times its height when pushed, and finding its run. */
  ghost function Rate(len: nat): nat {
    3 * Height(len) + 9
  }

  lemma Distribute(rate: nat, a: nat, b: nat)
    ensures rate * (a + b) == rate * a + rate * b
  {
  }

  /** Comparisons spent so far are covered by what the processed elements brought in. */
  ghost predicate Affordable(calls: int, runs: seq<Run>, done: nat, len: nat) {
    calls + 3 * Weight(runs) <= Rate(len) * done + Credit(runs)
  }

  lemma AffordPush(calls: int, calls': int, runs: seq<Run>, start: nat, end: nat, len: nat)
    requires start < end <= len && Tiled(runs, end, len) && Balanced(runs) && Collapse(runs) == None
    requires Affordable(calls, runs, len - end, len) && calls' <= calls + 9 * (end - start)
    ensures calls' + 3 * Weight(runs + [Run(start, end - start)]) <= Rate(len) * (len - start)
  {
    hide Weight, Log2, Balanced, Rate;
    var l := end - start;
    TiledTotal(runs, end, len);
    PushHeight(runs, len);
    PushIsPaid(runs, Run(start, l), Height(len));
    assert Credit(runs) == 0;
    RateCovers(len, l);
    Distribute(Rate(len), len - end, l);
  }

  lemma RateCovers(len: nat, l: nat)
    ensures Rate(len) * l == 3 * (Height(len) * l) + 9 * l
  {
  }

  /** Finds one run, pushes it and rebalances the stack. */
  method SortStep<T(!new)>(v: array<T>, runs0: seq<Run>, end: nat, buf: array<T>, ghost s: seq<T>, ghost c0: nat,
                           cmp: Comparator<T>, ghost less: (T, T) -> bool)
    returns (runs: seq<Run>, start: nat, panicked: bool)
    requires 0 < end <= v.Length == |s| && v != buf && buf.Length == v.Length / 2
    requires Tiled(runs0, end, v.Length) && Balanced(runs0) && Collapse(runs0) == None
    requires Permuted(s, v[..], end, |s|)
    requires Affordable(cmp.calls - c0, runs0, |s| - end, |s|)
    requires cmp.Implements(less) && StrictWeakOrder(less) ==> Progress(less, s, v[..], runs0, end)
    requires !cmp.unwinding
    modifies v, buf, cmp
    ensures start < end
    ensures runs != [] && Tiled(runs, start, v.Length)
    ensures !panicked ==> Balanced(runs) && Collapse(runs) == None
    ensures Permuted(s, v[..], start, |s|)
    ensures Affordable(cmp.calls - c0, runs, |s| - start, |s|)
    ensures cmp.Tells(panicked)
    ensures cmp.Implements(less) && !panicked && StrictWeakOrder(less) ==> Progress(less, s, v[..], runs, start)
    ensures cmp.Implements(less) && !panicked && runs0 == [] && OneRun(less, old(v[..end])) ==>
              start == 0 && cmp.calls == old(cmp.calls) + end - 1
  {
    hide OneRun, StrictWeakOrder, Stable, AllSorted, Tiled, Permuted, NearlyBalanced, Balanced, Weight, Credit,
         Collapse, SortedStably, Rate;
    ghost var t := v[..];
    start, panicked := NextRun(v, end, cmp, less);
    ghost var u := v[..];
    PermutedGrow(s, t, u, start, end);
    TiledPush(runs0, end, v.Length, start);
    PushKeepsNearly(runs0, Run(start, end - start));
    AffordPush(old(cmp.calls) - c0, cmp.calls - c0, runs0, start, end, |s|);
    if cmp.Implements(less) && !panicked && StrictWeakOrder(less) {
      ProgressPush(less, s, t, u, runs0, start, end);
    }
    runs := runs0 + [Run(start, end - start)];
    if panicked {
      return;
    }
    runs, panicked := CollapseRuns(v, runs, buf, start, cmp, less);
    PermutedTransitive(s, u, v[..], start, |s|);
    if cmp.Implements(less) && !panicked && StrictWeakOrder(less) {
      StableTransitive(less, s[start..|s|], u[start..|s|], v[..][start..|s|]);
    }
  }

  lemma AffordBound(calls: int, runs: seq<Run>, end: nat, len: nat)
    requires end <= len && Tiled(runs, end, len) && Affordable(calls, runs, len - end, len)
    ensures calls <= CallBound(len)
  {
    hide Weight, Log2;
    if runs != [] { TiledWithin(runs, end, len, |runs| - 1); }
    assert Credit(runs) <= len;
    Distribute(Rate(len), len - end, end);
    assert Rate(len) * end >= 0;
    Distribute(len, Rate(len), 1);
    Distribute(len, Rate(len) + 1, 1);
  }

  /** Slices of more than `MAX_INSERTION` elements. */
  method LongSort<T(!new)>(v: array<T>, cmp: Comparator<T>, ghost less: (T, T) -> bool)
    returns (panicked: bool)
    requires v.Length > MAX_INSERTION
    requires !cmp.unwinding
    modifies v, cmp
    ensures Permuted(old(v[..]), v[..], 0, v.Length)
    ensures cmp.calls <= old(cmp.calls) + CallBound(v.Length)
    ensures cmp.Tells(panicked)
    ensures cmp.Implements(less) && !panicked && StrictWeakOrder(less) ==>
              SortedStably(less, old(v[..]), v[..], 0, v.Length)
    ensures cmp.Implements(less) && !panicked && OneRun(less, old(v[..])) ==>
              cmp.calls == old(cmp.calls) + v.Length - 1
  {
    hide StrictWeakOrder, Tiled, Permuted, Balanced, Progress, SortedStably, Collapse, Affordable, CallBound,
         OneRun;
    ghost var s := v[..];
    var len, filler := v.Length, v[0];
    var buf := new T[len / 2](_ => filler);
    var runs: seq<Run>, end: nat := [], len;
    panicked := false;
    assert v[..] == s;
    SortStart(less, s);
    while end > 0 && !panicked
      invariant end <= len
      invariant Tiled(runs, end, len) && (end < len ==> runs != [])
      invariant !panicked ==> Balanced(runs) && Collapse(runs) == None
      invariant Permuted(s, v[..], end, len)
      invariant Affordable(cmp.calls - old(cmp.calls), runs, len - end, len)
      invariant cmp.Tells(panicked)
      invariant cmp.Implements(less) && !panicked && StrictWeakOrder(less) ==> Progress(less, s, v[..], runs, end)
      invariant runs == [] ==> end == len && v[..] == s && cmp.calls == old(cmp.calls)
      invariant cmp.Implements(less) && !panicked && OneRun(less, s) && runs != [] ==>
                  end == 0 && cmp.calls == old(cmp.calls) + len - 1
      decreases !panicked, end
    {
      assert runs == [] ==> v[..end] == s;
      runs, end, panicked := SortStep(v, runs, end, buf, s, old(cmp.calls), cmp, less);
    }
    AffordBound(cmp.calls - old(cmp.calls), runs, end, len);
    PermutedWider(s, v[..], end, len, 0, len);
    if !panicked { SortEnd(less, s, v[..], runs); }
  }

  lemma SortStart<T(!new)>(less: (T, T) -> bool, s: seq<T>)
    ensures Tiled([], |s|, |s|) && Balanced([]) && Collapse([]) == None
    ensures Permuted(s, s, |s|, |s|) && Affordable(0, [], 0, |s|) && Progress(less, s, s, [], |s|)
  {
  }

  lemma SortEnd<T(!new)>(less: (T, T) -> bool, s: seq<T>, t: seq<T>, runs: seq<Run>)
    requires runs != [] && Tiled(runs, 0, |s|) && Collapse(runs) == None && |t| == |s|
    ensures runs == [Run(0, |s|)]
    ensures Progress(less, s, t, runs, 0) ==> SortedStably(less, s, t, 0, |s|)
  {
    hide Tiled, Collapse, AllSorted, Sorted, Stable;
    OneRunLeft(less, t, runs);
    assert s[0..|s|] == s && t[0..|s|] == t;
  }

  /** The stable sort of slices.  For every comparator, whatever it answers and wherever it panics,
      the slice keeps each of its elements exactly once and the comparisons stay within O(n log n).
      It panics exactly when the comparator does, at its last comparison.  Otherwise, for a strict
      weak order, the result is the one sorted stable rearrangement of the slice. */
  method Sort<T(!new)>(v: array<T>, cmp: Comparator<T>, ghost less: (T, T) -> bool)
    returns (panicked: bool)
    requires !cmp.unwinding
    modifies v, cmp
    ensures multiset(v[..]) == multiset(old(v[..]))
    ensures cmp.calls <= old(cmp.calls) + CallBound(v.Length)
    ensures panicked == cmp.unwinding && (cmp.NeverPanics() ==> !panicked)
    ensures cmp.Implements(less) && !panicked && StrictWeakOrder(less) ==>
              Sorted(less, v[..]) && Stable(less, old(v[..]), v[..])
    ensures && cmp.Implements(less) && !panicked && v.Length > 0
            && (NonDescending(less, old(v[..])) || (Descending(less, old(v[..])) && v.Length > MAX_INSERTION)) ==>
              cmp.calls == old(cmp.calls) + v.Length - 1
  {
    hide Log2, Sorted, Stable, StrictWeakOrder, NonDescending, Descending;
    ghost var s := v[..];
    if v.Length <= MAX_INSERTION {
      panicked := ShortSort(v, cmp, less);
      Distribute(v.Length, 6 * Log2(v.Length + 1), 17);
    } else {
      panicked := LongSort(v, cmp, less);
    }
    assert v[..][0..v.Length] == v[..] && s[0..v.Length] == s;
  }
}
