/** The loops of `merge`, with the `MergeHole` whose drop repairs the slice at the end of the merge
    and after a panic alike. */
module InPlaceMerge {
  import opened Slices
  import opened Ordering
  import opened Insertion
  import opened Merging

  /** What `MergeHole` keeps: the unconsumed range of the buffer and the gap it belongs to. */
  datatype MergeHole = MergeHole(start: nat, end: nat, dest: nat)

  /** `t` is `s` with the first `k` slots of the gap filled. */
  ghost predicate PartlyFilled<T>(s: seq<T>, b: seq<T>, t: seq<T>, start: nat, dest: nat, k: nat)
    requires start + k <= |b| && dest + k <= |s|
  {
    t == s[..dest] + b[start..start + k] + s[dest + k..]
  }

  lemma FillNone<T>(s: seq<T>, b: seq<T>, start: nat, dest: nat)
    requires start <= |b| && dest <= |s|
    ensures PartlyFilled(s, b, s, start, dest, 0)
  {
  }

  lemma FillOne<T>(s: seq<T>, b: seq<T>, t: seq<T>, start: nat, dest: nat, k: nat)
    requires start + k < |b| && dest + k < |s| && PartlyFilled(s, b, t, start, dest, k)
    ensures |t| == |s| && PartlyFilled(s, b, t[dest + k := b[start + k]], start, dest, k + 1)
  {
    var a, m, c := s[..dest], b[start..start + k], s[dest + k..];
    Snoc(b, start, start + k);
    assert t[dest + k := b[start + k]] == a + (m + [b[start + k]]) + c[1..];
  }

  lemma FillAll<T>(s: seq<T>, b: seq<T>, t: seq<T>, start: nat, dest: nat, n: nat)
    requires start + n <= |b| && dest + n <= |s| && PartlyFilled(s, b, t, start, dest, n)
    ensures t == s[..dest] + b[start..start + n] + s[dest + n..]
  {
  }

  /** Dropping the hole copies `buf[start..end]` into `v[dest..]`. */
  method DropHole<T>(v: array<T>, buf: array<T>, hole: MergeHole)
    requires v != buf
    requires hole.start <= hole.end <= buf.Length
    requires hole.dest + (hole.end - hole.start) <= v.Length
    modifies v
    ensures var gap := hole.end - hole.start;
            v[..] == old(v[..])[..hole.dest] + buf[..][hole.start..hole.end] + old(v[..])[hole.dest + gap..]
  {
    hide PartlyFilled;
    ghost var s, b := v[..], buf[..];
    var n := hole.end - hole.start;
    FillNone(s, b, hole.start, hole.dest);
    for k := 0 to n
      invariant buf[..] == b && PartlyFilled(s, b, v[..], hole.start, hole.dest, k)
    {
      ghost var t := v[..];
      FillOne(s, b, t, hole.start, hole.dest, k);
      v[hole.dest + k] := buf[hole.start + k];
      assert v[..] == t[hole.dest + k := b[hole.start + k]];
    }
    FillAll(s, b, v[..], hole.start, hole.dest, n);
  }

  /** Copies `v[from..from + n]` to the front of the buffer. */
  method Save<T>(v: array<T>, from: nat, n: nat, buf: array<T>)
    requires v != buf && from + n <= v.Length && n <= buf.Length
    modifies buf
    ensures buf[..][..n] == v[..][from..from + n]
  {
    for k := 0 to n
      invariant buf[..k] == v[from..from + k]
    {
      buf[k] := v[from + k];
    }
  }

  /** A piece of the saved run is the same piece of the original one. */
  lemma Saved<T>(s: seq<T>, b: seq<T>, lo: nat, hi: nat, i: nat, j: nat)
    requires lo <= hi <= |s| && hi - lo <= |b| && b[..hi - lo] == s[lo..hi] && i <= j <= hi - lo
    ensures b[i..j] == s[lo + i..lo + j]
  {
    Nested(b, 0, hi - lo, i, j);
    Nested(s, lo, hi, i, j);
  }

  /** Where a forward merge of `s` stands in `t`: `out` trails `right` by exactly the unconsumed
      part of the buffer, so nothing unread has been overwritten. */
  ghost predicate Forward<T>(s: seq<T>, t: seq<T>, b: seq<T>, lo: nat, mid: nat, hi: nat, left: nat, right: nat)
    requires lo <= mid <= hi <= |s|
  {
    && |t| == |s| && mid - lo <= |b|
    && left <= mid - lo && mid <= right <= hi
    && b[..mid - lo] == s[lo..mid]
    && t[..lo] == s[..lo] && t[right..] == s[right..]
    && Written(t[lo..lo + left + (right - mid)], s[lo..lo + left], s[mid..right])
  }

  /** What is written so far has the elements consumed from the two runs. */
  ghost predicate Written<T>(w: seq<T>, a: seq<T>, b: seq<T>) {
    multiset(w) == multiset(a) + multiset(b)
  }

  lemma WriteFirst<T>(w: seq<T>, a: seq<T>, b: seq<T>, x: T)
    requires Written(w, a, b)
    ensures Written(w + [x], a + [x], b) && Written([x] + w, [x] + a, b)
  {
  }

  lemma WriteSecond<T>(w: seq<T>, a: seq<T>, b: seq<T>, x: T)
    requires Written(w, a, b)
    ensures Written(w + [x], a, b + [x]) && Written([x] + w, a, [x] + b)
  {
  }

  /** What is written at the front and the rest of both runs are all the elements. */
  lemma WrittenFront<T>(w: seq<T>, a: seq<T>, b: seq<T>, c: seq<T>, d: seq<T>, whole: seq<T>)
    requires Written(w, a, c) && whole == a + b + c + d
    ensures multiset(w + b + d) == multiset(whole)
  {
    assert multiset(whole) == multiset(a) + multiset(b) + multiset(c) + multiset(d);
    assert multiset(w + b + d) == multiset(w) + multiset(b) + multiset(d);
  }

  lemma WrittenBack<T>(w: seq<T>, a: seq<T>, b: seq<T>, c: seq<T>, d: seq<T>, whole: seq<T>)
    requires Written(w, b, d) && whole == a + b + c + d
    ensures multiset(a + c + w) == multiset(whole)
  {
    assert multiset(whole) == multiset(a) + multiset(b) + multiset(c) + multiset(d);
    assert multiset(a + c + w) == multiset(a) + multiset(c) + multiset(w);
  }

  /** What is written so far, continued by the merge of what is left, is the whole merge. */
  ghost predicate ForwardMerges<T>(less: (T, T) -> bool, s: seq<T>, t: seq<T>, lo: nat, mid: nat, hi: nat,
                                   left: nat, right: nat)
    requires lo <= mid <= hi <= |s| && |t| == |s| && left <= mid - lo && mid <= right <= hi
  {
    var out := lo + left + (right - mid);
    t[lo..out] + StableMerge(less, s[lo + left..mid], s[right..hi]) == StableMerge(less, s[lo..mid], s[mid..hi])
  }

  lemma ForwardStart<T>(less: (T, T) -> bool, s: seq<T>, b: seq<T>, lo: nat, mid: nat, hi: nat)
    requires lo <= mid <= hi <= |s| && mid - lo <= |b| && b[..mid - lo] == s[lo..mid]
    ensures Forward(s, s, b, lo, mid, hi, 0, mid)
    ensures ForwardMerges(less, s, s, lo, mid, hi, 0, mid)
  {
  }

  /** Both cursors still read original elements. */
  lemma ForwardReads<T>(s: seq<T>, t: seq<T>, b: seq<T>, lo: nat, mid: nat, hi: nat, left: nat, right: nat)
    requires lo <= mid <= hi <= |s| && Forward(s, t, b, lo, mid, hi, left, right)
    requires left < mid - lo && right < hi
    ensures |t| == |s| && left < |b| && t[right] == s[right] && b[left] == s[lo + left]
  {
  }

  lemma TakeLeft<T>(s: seq<T>, t: seq<T>, b: seq<T>, lo: nat, mid: nat, hi: nat, left: nat, right: nat)
    requires lo <= mid <= hi <= |s| && Forward(s, t, b, lo, mid, hi, left, right) && left < mid - lo
    ensures Forward(s, t[lo + left + (right - mid) := b[left]], b, lo, mid, hi, left + 1, right)
  {
    hide Written;
    var out := lo + left + (right - mid);
    var x := s[lo + left];
    assert b[left] == b[..mid - lo][left] == x;
    SetBelow(s, t, lo, lo, out, x);
    SetAbove(s, t, right, right, out, x);
    SetSnoc(t, lo, out, x);
    Snoc(s, lo, lo + left);
    WriteFirst(t[lo..out], s[lo..lo + left], s[mid..right], x);
  }

  lemma TakeRight<T>(s: seq<T>, t: seq<T>, b: seq<T>, lo: nat, mid: nat, hi: nat, left: nat, right: nat)
    requires lo <= mid <= hi <= |s| && Forward(s, t, b, lo, mid, hi, left, right) && right < hi
    ensures Forward(s, t[lo + left + (right - mid) := t[right]], b, lo, mid, hi, left, right + 1)
  {
    hide Written;
    var out := lo + left + (right - mid);
    var x := s[right];
    assert t[right] == t[right..][0] == x;
    SetBelow(s, t, lo, lo, out, x);
    SetAbove(s, t, right, right + 1, out, x);
    SetSnoc(t, lo, out, x);
    Snoc(s, mid, right);
    WriteSecond(t[lo..out], s[lo..lo + left], s[mid..right], x);
  }

  lemma MergeTakesLeft<T>(less: (T, T) -> bool, a: seq<T>, b: seq<T>)
    requires a != [] && b != [] && !less(b[0], a[0])
    ensures StableMerge(less, a, b) == [a[0]] + StableMerge(less, a[1..], b)
  {
  }

  lemma MergeTakesRight<T>(less: (T, T) -> bool, a: seq<T>, b: seq<T>)
    requires a != [] && b != [] && less(b[0], a[0])
    ensures StableMerge(less, a, b) == [b[0]] + StableMerge(less, a, b[1..])
  {
  }

  lemma TakeLeftMerges<T>(less: (T, T) -> bool, s: seq<T>, t: seq<T>, lo: nat, mid: nat, hi: nat, left: nat, right: nat)
    requires lo <= mid <= hi <= |s| && |t| == |s| && left < mid - lo && mid <= right < hi
    requires ForwardMerges(less, s, t, lo, mid, hi, left, right) && !less(s[right], s[lo + left])
    ensures ForwardMerges(less, s, t[lo + left + (right - mid) := s[lo + left]], lo, mid, hi, left + 1, right)
  {
    hide StableMerge;
    var out, x := lo + left + (right - mid), s[lo + left];
    var a, b := s[lo + left..mid], s[right..hi];
    SetSnoc(t, lo, out, x);
    NestedDrop(s, lo + left, mid, 1);
    MergeTakesLeft(less, a, b);
    Assoc(t[lo..out], [x], StableMerge(less, a[1..], b));
  }

  lemma TakeRightMerges<T>(less: (T, T) -> bool, s: seq<T>, t: seq<T>, lo: nat, mid: nat, hi: nat, left: nat,
                           right: nat)
    requires lo <= mid <= hi <= |s| && |t| == |s| && left < mid - lo && mid <= right < hi
    requires ForwardMerges(less, s, t, lo, mid, hi, left, right) && less(s[right], s[lo + left])
    ensures ForwardMerges(less, s, t[lo + left + (right - mid) := s[right]], lo, mid, hi, left, right + 1)
  {
    hide StableMerge;
    var out, x := lo + left + (right - mid), s[right];
    var a, b := s[lo + left..mid], s[right..hi];
    SetSnoc(t, lo, out, x);
    NestedDrop(s, right, hi, 1);
    MergeTakesRight(less, a, b);
    Assoc(t[lo..out], [x], StableMerge(less, a, b[1..]));
  }

  lemma ForwardPatched<T>(s: seq<T>, t: seq<T>, b: seq<T>, u: seq<T>, lo: nat, mid: nat, hi: nat, left: nat, right: nat)
    requires lo <= mid <= hi <= |s| && Forward(s, t, b, lo, mid, hi, left, right)
    requires u == t[..lo + left + (right - mid)] + b[left..mid - lo] + t[right..]
    ensures OnlyWindow(s, u, lo, hi)
    ensures u[lo..hi] == t[lo..lo + left + (right - mid)] + s[lo + left..mid] + s[right..hi]
  {
    hide Written;
    Patched(t, b[left..mid - lo], lo + left + (right - mid), right, lo, hi);
    Saved(s, b, lo, mid, left, mid - lo);
    SameAbove(s, t, right, right, hi);
    SameFrom(s, t, right, hi);
  }

  lemma ForwardCounted<T>(s: seq<T>, t: seq<T>, b: seq<T>, lo: nat, mid: nat, hi: nat, left: nat, right: nat)
    requires lo <= mid <= hi <= |s| && Forward(s, t, b, lo, mid, hi, left, right)
    ensures |t| == |s| && left <= mid - lo && mid <= right <= hi
    ensures multiset(t[lo..lo + left + (right - mid)] + s[lo + left..mid] + s[right..hi]) == multiset(s[lo..hi])
  {
    hide Written;
    FourParts(s, lo, lo + left, mid, right, hi);
    var w := t[lo..lo + left + (right - mid)];
    WrittenFront(w, s[lo..lo + left], s[lo + left..mid], s[mid..right], s[right..hi], s[lo..hi]);
  }

  /** Filling the gap completes the window, wherever the merge stopped. */
  lemma ForwardFilled<T>(s: seq<T>, t: seq<T>, b: seq<T>, u: seq<T>, lo: nat, mid: nat, hi: nat, left: nat, right: nat)
    requires lo <= mid <= hi <= |s| && Forward(s, t, b, lo, mid, hi, left, right)
    requires u == t[..lo + left + (right - mid)] + b[left..mid - lo] + t[right..]
    ensures OnlyWindow(s, u, lo, hi)
    ensures u[lo..hi] == t[lo..lo + left + (right - mid)] + s[lo + left..mid] + s[right..hi]
    ensures multiset(u[lo..hi]) == multiset(s[lo..hi])
  {
    hide Forward, OnlyWindow;
    ForwardPatched(s, t, b, u, lo, mid, hi, left, right);
    ForwardCounted(s, t, b, lo, mid, hi, left, right);
  }

  /** Once a run is exhausted the filled window is the merge. */
  lemma ForwardDone<T>(less: (T, T) -> bool, s: seq<T>, t: seq<T>, lo: nat, mid: nat, hi: nat, left: nat, right: nat)
    requires lo <= mid <= hi <= |s| && |t| == |s| && left <= mid - lo && mid <= right <= hi
    requires ForwardMerges(less, s, t, lo, mid, hi, left, right) && (left == mid - lo || right == hi)
    ensures t[lo..lo + left + (right - mid)] + s[lo + left..mid] + s[right..hi] ==
            StableMerge(less, s[lo..mid], s[mid..hi])
  {
  }

  /** One turn of the forward loop: the lesser head is written to `out`, the right one only if it
      is strictly below the left one. */
  method ForwardStep<T(!new)>(ghost s: seq<T>, v: array<T>, lo: nat, mid: nat, hi: nat, buf: array<T>,
                              left: nat, right: nat, cmp: Comparator<T>, ghost less: (T, T) -> bool)
    returns (left': nat, right': nat, panicked: bool)
    requires lo <= mid <= hi <= v.Length == |s| && v != buf && left < mid - lo && mid <= right < hi
    requires Forward(s, v[..], buf[..], lo, mid, hi, left, right)
    requires !cmp.unwinding
    modifies v, cmp
    ensures cmp.calls == old(cmp.calls) + 1
    ensures left' + right' == left + right + if panicked then 0 else 1
    ensures left <= left' <= mid - lo && right <= right' <= hi
    ensures Forward(s, v[..], buf[..], lo, mid, hi, left', right')
    ensures cmp.Tells(panicked)
    ensures cmp.Implements(less) && !panicked && ForwardMerges(less, s, old(v[..]), lo, mid, hi, left, right) ==>
              ForwardMerges(less, s, v[..], lo, mid, hi, left', right')
  {
    hide ForwardMerges, Forward;
    ghost var t, b := v[..], buf[..];
    ForwardReads(s, t, b, lo, mid, hi, left, right);
    var out := lo + left + (right - mid);
    var r := cmp.IsLess(v[right], buf[left]);
    left', right', panicked := left, right, r.Panic?;
    if panicked {
      return;
    }
    if r.less {
      TakeRight(s, t, b, lo, mid, hi, left, right);
      if cmp.Implements(less) && ForwardMerges(less, s, t, lo, mid, hi, left, right) {
        TakeRightMerges(less, s, t, lo, mid, hi, left, right);
      }
      v[out] := v[right];
      right' := right + 1;
      assert v[..] == t[out := t[right]];
    } else {
      TakeLeft(s, t, b, lo, mid, hi, left, right);
      if cmp.Implements(less) && ForwardMerges(less, s, t, lo, mid, hi, left, right) {
        TakeLeftMerges(less, s, t, lo, mid, hi, left, right);
      }
      v[out] := buf[left];
      left' := left + 1;
      assert v[..] == t[out := b[left]];
    }
    assert buf[..] == b;
  }

  /** The loop of the forward branch, up to the end of a run or to a panic. */
  method ForwardLoop<T(!new)>(ghost s: seq<T>, v: array<T>, lo: nat, mid: nat, hi: nat, buf: array<T>,
                              cmp: Comparator<T>, ghost less: (T, T) -> bool)
    returns (left: nat, right: nat, panicked: bool)
    requires lo < mid < hi <= v.Length == |s| && v != buf
    requires s == v[..] && mid - lo <= buf.Length && buf[..][..mid - lo] == s[lo..mid]
    requires !cmp.unwinding
    modifies v, cmp
    ensures left <= mid - lo && mid <= right <= hi
    ensures Forward(s, v[..], buf[..], lo, mid, hi, left, right)
    ensures old(cmp.calls) <= cmp.calls < old(cmp.calls) + hi - lo
    ensures cmp.Tells(panicked)
    ensures cmp.Implements(less) && !panicked ==>
              && (left == mid - lo || right == hi)
              && ForwardMerges(less, s, v[..], lo, mid, hi, left, right)
  {
    hide ForwardMerges, Forward;
    ForwardStart(less, s, buf[..], lo, mid, hi);
    left, right, panicked := 0, mid, false;
    while left < mid - lo && right < hi && !panicked
      invariant left <= mid - lo && mid <= right <= hi
      invariant Forward(s, v[..], buf[..], lo, mid, hi, left, right)
      invariant cmp.calls == old(cmp.calls) + left + (right - mid) + if panicked then 1 else 0
      invariant left < mid - lo || right < hi
      invariant panicked ==> left < mid - lo && right < hi
      invariant cmp.Tells(panicked)
      invariant cmp.Implements(less) && !panicked ==> ForwardMerges(less, s, v[..], lo, mid, hi, left, right)
      decreases !panicked, mid - lo - left + (hi - right)
    {
      left, right, panicked := ForwardStep(s, v, lo, mid, hi, buf, left, right, cmp, less);
    }
  }

  /** The branch of `merge` that saves the left run and merges forwards. */
  method MergeForward<T(!new)>(v: array<T>, lo: nat, mid: nat, hi: nat, buf: array<T>, cmp: Comparator<T>,
                               ghost less: (T, T) -> bool)
    returns (panicked: bool)
    requires lo < mid < hi <= v.Length && v != buf && mid - lo <= buf.Length
    requires !cmp.unwinding
    modifies v, buf, cmp
    ensures OnlyWindow(old(v[..]), v[..], lo, hi)
    ensures multiset(v[..][lo..hi]) == multiset(old(v[..])[lo..hi])
    ensures old(cmp.calls) <= cmp.calls < old(cmp.calls) + hi - lo
    ensures cmp.Tells(panicked)
    ensures cmp.Implements(less) && !panicked ==>
              v[..][lo..hi] == StableMerge(less, old(v[..])[lo..mid], old(v[..])[mid..hi])
  {
    hide ForwardMerges, Forward, StableMerge;
    ghost var s := v[..];
    Save(v, lo, mid - lo, buf);
    var left, right;
    left, right, panicked := ForwardLoop(s, v, lo, mid, hi, buf, cmp, less);
    ghost var t := v[..];
    DropHole(v, buf, MergeHole(left, mid - lo, lo + left + (right - mid)));
    ForwardFilled(s, t, buf[..], v[..], lo, mid, hi, left, right);
    if cmp.Implements(less) && !panicked { ForwardDone(less, s, t, lo, mid, hi, left, right); }
  }

  /** Where a backward merge of `s` stands in `t`.  The gap is `left..left + right`, as long as the
      unconsumed part of the buffer. */
  ghost predicate Backward<T>(s: seq<T>, t: seq<T>, b: seq<T>, lo: nat, mid: nat, hi: nat, left: nat, right: nat)
    requires lo <= mid <= hi <= |s|
  {
    && |t| == |s| && hi - mid <= |b|
    && lo <= left <= mid && right <= hi - mid
    && b[..hi - mid] == s[mid..hi]
    && t[..left] == s[..left] && t[hi..] == s[hi..]
    && Written(t[left + right..hi], s[left..mid], s[mid + right..hi])
  }

  ghost predicate BackwardMerges<T>(less: (T, T) -> bool, s: seq<T>, t: seq<T>, lo: nat, mid: nat, hi: nat,
                                    left: nat, right: nat)
    requires lo <= mid <= hi <= |s| && |t| == |s| && lo <= left <= mid && right <= hi - mid
  {
    BackwardMerge(less, s[lo..left], s[mid..mid + right]) + t[left + right..hi] ==
    BackwardMerge(less, s[lo..mid], s[mid..hi])
  }

  lemma BackwardStart<T>(less: (T, T) -> bool, s: seq<T>, b: seq<T>, lo: nat, mid: nat, hi: nat)
    requires lo <= mid <= hi <= |s| && hi - mid <= |b| && b[..hi - mid] == s[mid..hi]
    ensures Backward(s, s, b, lo, mid, hi, mid, hi - mid)
    ensures BackwardMerges(less, s, s, lo, mid, hi, mid, hi - mid)
  {
  }

  lemma BackwardReads<T>(s: seq<T>, t: seq<T>, b: seq<T>, lo: nat, mid: nat, hi: nat, left: nat, right: nat)
    requires lo <= mid <= hi <= |s| && Backward(s, t, b, lo, mid, hi, left, right)
    requires lo < left && 0 < right
    ensures |t| == |s| && right <= |b| && t[left - 1] == s[left - 1] && b[right - 1] == s[mid + right - 1]
  {
  }

  lemma PutRight<T>(s: seq<T>, t: seq<T>, b: seq<T>, lo: nat, mid: nat, hi: nat, left: nat, right: nat)
    requires lo <= mid <= hi <= |s| && Backward(s, t, b, lo, mid, hi, left, right) && 0 < right
    ensures Backward(s, t[left + right - 1 := b[right - 1]], b, lo, mid, hi, left, right - 1)
  {
    hide Written;
    var out := left + right - 1;
    var x := s[mid + right - 1];
    assert b[right - 1] == b[..hi - mid][right - 1] == x;
    SetBelow(s, t, left, left, out, x);
    SetAbove(s, t, hi, hi, out, x);
    SetCons(t, out, hi, x);
    Cons(s, mid + right - 1, hi);
    WriteSecond(t[out + 1..hi], s[left..mid], s[mid + right..hi], x);
  }

  lemma PutLeft<T>(s: seq<T>, t: seq<T>, b: seq<T>, lo: nat, mid: nat, hi: nat, left: nat, right: nat)
    requires lo <= mid <= hi <= |s| && Backward(s, t, b, lo, mid, hi, left, right) && lo < left
    ensures Backward(s, t[left + right - 1 := t[left - 1]], b, lo, mid, hi, left - 1, right)
  {
    hide Written;
    var out := left + right - 1;
    var x := s[left - 1];
    assert t[left - 1] == t[..left][left - 1] == x;
    SetBelow(s, t, left, left - 1, out, x);
    SetAbove(s, t, hi, hi, out, x);
    SetCons(t, out, hi, x);
    Cons(s, left - 1, mid);
    WriteFirst(t[out + 1..hi], s[left..mid], s[mid + right..hi], x);
  }

  lemma BackwardTakesRight<T>(less: (T, T) -> bool, a: seq<T>, b: seq<T>)
    requires a != [] && b != [] && !less(b[|b| - 1], a[|a| - 1])
    ensures BackwardMerge(less, a, b) == BackwardMerge(less, a, b[..|b| - 1]) + [b[|b| - 1]]
  {
  }

  lemma BackwardTakesLeft<T>(less: (T, T) -> bool, a: seq<T>, b: seq<T>)
    requires a != [] && b != [] && less(b[|b| - 1], a[|a| - 1])
    ensures BackwardMerge(less, a, b) == BackwardMerge(less, a[..|a| - 1], b) + [a[|a| - 1]]
  {
  }

  lemma PutRightMerges<T>(less: (T, T) -> bool, s: seq<T>, t: seq<T>, lo: nat, mid: nat, hi: nat, left: nat, right: nat)
    requires lo <= mid <= hi <= |s| && |t| == |s| && lo < left <= mid && 0 < right <= hi - mid
    requires BackwardMerges(less, s, t, lo, mid, hi, left, right) && !less(s[mid + right - 1], s[left - 1])
    ensures BackwardMerges(less, s, t[left + right - 1 := s[mid + right - 1]], lo, mid, hi, left, right - 1)
  {
    hide BackwardMerge;
    var out, x := left + right - 1, s[mid + right - 1];
    var a, b := s[lo..left], s[mid..mid + right];
    SetCons(t, out, hi, x);
    NestedTake(s, mid, mid + right, right - 1);
    BackwardTakesRight(less, a, b);
    Assoc(BackwardMerge(less, a, b[..right - 1]), [x], t[out + 1..hi]);
  }

  lemma PutLeftMerges<T>(less: (T, T) -> bool, s: seq<T>, t: seq<T>, lo: nat, mid: nat, hi: nat, left: nat, right: nat)
    requires lo <= mid <= hi <= |s| && |t| == |s| && lo < left <= mid && 0 < right <= hi - mid
    requires BackwardMerges(less, s, t, lo, mid, hi, left, right) && less(s[mid + right - 1], s[left - 1])
    ensures BackwardMerges(less, s, t[left + right - 1 := s[left - 1]], lo, mid, hi, left - 1, right)
  {
    hide BackwardMerge;
    var out, x := left + right - 1, s[left - 1];
    var a, b := s[lo..left], s[mid..mid + right];
    SetCons(t, out, hi, x);
    NestedTake(s, lo, left, left - 1 - lo);
    BackwardTakesLeft(less, a, b);
    Assoc(BackwardMerge(less, a[..|a| - 1], b), [x], t[out + 1..hi]);
  }

  lemma BackwardPatched<T>(s: seq<T>, t: seq<T>, b: seq<T>, u: seq<T>, lo: nat, mid: nat, hi: nat, left: nat,
                           right: nat)
    requires lo <= mid <= hi <= |s| && Backward(s, t, b, lo, mid, hi, left, right)
    requires u == t[..left] + b[0..right] + t[left + right..]
    ensures OnlyWindow(s, u, lo, hi)
    ensures u[lo..hi] == s[lo..left] + s[mid..mid + right] + t[left + right..hi]
  {
    hide Written;
    Patched(t, b[0..right], left, left + right, lo, hi);
    Saved(s, b, mid, hi, 0, right);
    SameBelow(s, t, left, lo, left);
    SameBelow(s, t, left, 0, lo);
  }

  lemma BackwardCounted<T>(s: seq<T>, t: seq<T>, b: seq<T>, lo: nat, mid: nat, hi: nat, left: nat, right: nat)
    requires lo <= mid <= hi <= |s| && Backward(s, t, b, lo, mid, hi, left, right)
    ensures |t| == |s| && lo <= left <= mid && right <= hi - mid
    ensures multiset(s[lo..left] + s[mid..mid + right] + t[left + right..hi]) == multiset(s[lo..hi])
  {
    hide Written;
    FourParts(s, lo, left, mid, mid + right, hi);
    var w := t[left + right..hi];
    WrittenBack(w, s[lo..left], s[left..mid], s[mid..mid + right], s[mid + right..hi], s[lo..hi]);
  }

  lemma BackwardFilled<T>(s: seq<T>, t: seq<T>, b: seq<T>, u: seq<T>, lo: nat, mid: nat, hi: nat, left: nat, right: nat)
    requires lo <= mid <= hi <= |s| && Backward(s, t, b, lo, mid, hi, left, right)
    requires u == t[..left] + b[0..right] + t[left + right..]
    ensures OnlyWindow(s, u, lo, hi)
    ensures u[lo..hi] == s[lo..left] + s[mid..mid + right] + t[left + right..hi]
    ensures multiset(u[lo..hi]) == multiset(s[lo..hi])
  {
    hide Backward, OnlyWindow;
    BackwardPatched(s, t, b, u, lo, mid, hi, left, right);
    BackwardCounted(s, t, b, lo, mid, hi, left, right);
  }

  lemma BackwardDone<T>(less: (T, T) -> bool, s: seq<T>, t: seq<T>, lo: nat, mid: nat, hi: nat, left: nat, right: nat)
    requires lo <= mid <= hi <= |s| && |t| == |s| && lo <= left <= mid && right <= hi - mid
    requires BackwardMerges(less, s, t, lo, mid, hi, left, right) && (left == lo || right == 0)
    ensures s[lo..left] + s[mid..mid + right] + t[left + right..hi] == BackwardMerge(less, s[lo..mid], s[mid..hi])
  {
  }

  /** One turn of the backward loop: the greater tail is written to `out`, the left one only if it
      is strictly above the right one. */
  method BackwardStep<T(!new)>(ghost s: seq<T>, v: array<T>, lo: nat, ghost mid: nat, ghost hi: nat, buf: array<T>,
                               left: nat, right: nat, cmp: Comparator<T>, ghost less: (T, T) -> bool)
    returns (left': nat, right': nat, panicked: bool)
    requires lo <= mid <= hi <= v.Length == |s| && v != buf && lo < left <= mid && 0 < right <= hi - mid
    requires Backward(s, v[..], buf[..], lo, mid, hi, left, right)
    requires !cmp.unwinding
    modifies v, cmp
    ensures cmp.calls == old(cmp.calls) + 1
    ensures left' + right' == left + right - if panicked then 0 else 1
    ensures lo <= left' <= left && right' <= right
    ensures Backward(s, v[..], buf[..], lo, mid, hi, left', right')
    ensures cmp.Tells(panicked)
    ensures cmp.Implements(less) && !panicked && BackwardMerges(less, s, old(v[..]), lo, mid, hi, left, right) ==>
              BackwardMerges(less, s, v[..], lo, mid, hi, left', right')
  {
    hide BackwardMerges, Backward;
    ghost var t, b := v[..], buf[..];
    BackwardReads(s, t, b, lo, mid, hi, left, right);
    var out := left + right - 1;
    var r := cmp.IsLess(buf[right - 1], v[left - 1]);
    left', right', panicked := left, right, r.Panic?;
    if panicked {
      return;
    }
    if r.less {
      PutLeft(s, t, b, lo, mid, hi, left, right);
      if cmp.Implements(less) && BackwardMerges(less, s, t, lo, mid, hi, left, right) {
        PutLeftMerges(less, s, t, lo, mid, hi, left, right);
      }
      v[out] := v[left - 1];
      left' := left - 1;
      assert v[..] == t[out := t[left - 1]];
    } else {
      PutRight(s, t, b, lo, mid, hi, left, right);
      if cmp.Implements(less) && BackwardMerges(less, s, t, lo, mid, hi, left, right) {
        PutRightMerges(less, s, t, lo, mid, hi, left, right);
      }
      v[out] := buf[right - 1];
      right' := right - 1;
      assert v[..] == t[out := b[right - 1]];
    }
    assert buf[..] == b;
  }

  /** The loop of the backward branch, down to the start of a run or to a panic. */
  method BackwardLoop<T(!new)>(ghost s: seq<T>, v: array<T>, lo: nat, mid: nat, hi: nat, buf: array<T>,
                               cmp: Comparator<T>, ghost less: (T, T) -> bool)
    returns (left: nat, right: nat, panicked: bool)
    requires lo < mid < hi <= v.Length == |s| && v != buf
    requires s == v[..] && hi - mid <= buf.Length && buf[..][..hi - mid] == s[mid..hi]
    requires !cmp.unwinding
    modifies v, cmp
    ensures lo <= left <= mid && right <= hi - mid
    ensures Backward(s, v[..], buf[..], lo, mid, hi, left, right)
    ensures old(cmp.calls) <= cmp.calls < old(cmp.calls) + hi - lo
    ensures cmp.Tells(panicked)
    ensures cmp.Implements(less) && !panicked ==>
              && (left == lo || right == 0)
              && BackwardMerges(less, s, v[..], lo, mid, hi, left, right)
  {
    hide BackwardMerges, Backward;
    BackwardStart(less, s, buf[..], lo, mid, hi);
    left, right, panicked := mid, hi - mid, false;
    while lo < left && 0 < right && !panicked
      invariant lo <= left <= mid && right <= hi - mid
      invariant Backward(s, v[..], buf[..], lo, mid, hi, left, right)
      invariant cmp.calls == old(cmp.calls) + (hi - left - right) + if panicked then 1 else 0
      invariant lo < left || 0 < right
      invariant panicked ==> lo < left && 0 < right
      invariant cmp.Tells(panicked)
      invariant cmp.Implements(less) && !panicked ==> BackwardMerges(less, s, v[..], lo, mid, hi, left, right)
      decreases !panicked, left - lo + right
    {
      left, right, panicked := BackwardStep(s, v, lo, mid, hi, buf, left, right, cmp, less);
    }
  }

  /** The branch of `merge` that saves the right run and merges backwards. */
  method MergeBackward<T(!new)>(v: array<T>, lo: nat, mid: nat, hi: nat, buf: array<T>, cmp: Comparator<T>,
                                ghost less: (T, T) -> bool)
    returns (panicked: bool)
    requires lo < mid < hi <= v.Length && v != buf && hi - mid <= buf.Length
    requires !cmp.unwinding
    modifies v, buf, cmp
    ensures OnlyWindow(old(v[..]), v[..], lo, hi)
    ensures multiset(v[..][lo..hi]) == multiset(old(v[..])[lo..hi])
    ensures old(cmp.calls) <= cmp.calls < old(cmp.calls) + hi - lo
    ensures cmp.Tells(panicked)
    ensures cmp.Implements(less) && !panicked ==>
              v[..][lo..hi] == BackwardMerge(less, old(v[..])[lo..mid], old(v[..])[mid..hi])
  {
    hide BackwardMerges, Backward, BackwardMerge;
    ghost var s := v[..];
    Save(v, mid, hi - mid, buf);
    var left, right;
    left, right, panicked := BackwardLoop(s, v, lo, mid, hi, buf, cmp, less);
    ghost var t := v[..];
    DropHole(v, buf, MergeHole(0, right, left));
    BackwardFilled(s, t, buf[..], v[..], lo, mid, hi, left, right);
    if cmp.Implements(less) && !panicked { BackwardDone(less, s, t, lo, mid, hi, left, right); }
  }

  /** `merge`: whatever the comparator answers, and wherever it panics, the window keeps its
      elements; a strict weak order on two sorted runs gives their stable merge. */
  method Merge<T(!new)>(v: array<T>, lo: nat, mid: nat, hi: nat, buf: array<T>, cmp: Comparator<T>,
                        ghost less: (T, T) -> bool)
    returns (panicked: bool)
    requires lo < mid < hi <= v.Length && v != buf
    requires mid - lo <= buf.Length || hi - mid <= buf.Length
    requires !cmp.unwinding
    modifies v, buf, cmp
    ensures OnlyWindow(old(v[..]), v[..], lo, hi)
    ensures multiset(v[..][lo..hi]) == multiset(old(v[..])[lo..hi])
    ensures old(cmp.calls) <= cmp.calls < old(cmp.calls) + hi - lo
    ensures cmp.Tells(panicked)
    ensures && cmp.Implements(less) && !panicked && StrictWeakOrder(less)
            && Sorted(less, old(v[..])[lo..mid]) && Sorted(less, old(v[..])[mid..hi]) ==>
              v[..][lo..hi] == StableMerge(less, old(v[..])[lo..mid], old(v[..])[mid..hi])
  {
    hide StableMerge, BackwardMerge;
    ghost var a, b := v[..][lo..mid], v[..][mid..hi];
    if mid - lo <= hi - mid {
      panicked := MergeForward(v, lo, mid, hi, buf, cmp, less);
    } else {
      panicked := MergeBackward(v, lo, mid, hi, buf, cmp, less);
      if StrictWeakOrder(less) && Sorted(less, a) && Sorted(less, b) { DirectionsAgree(less, a, b); }
    }
  }
}
