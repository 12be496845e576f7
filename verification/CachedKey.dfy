/** `sort_by_cached_key`: the keys are computed once, sorted together with the positions they came
    from, and the slice is then permuted in place by chasing positions that have been swapped away. */
module CachedKey {
  import opened Words
  import opened Wrappers
  import opened Ordering
  import MergeSort

  /** `p` lists every position below `|p|` exactly once. */
  ghost predicate IsPermutation(p: seq<nat>) {
    && (forall k :: 0 <= k < |p| ==> p[k] < |p|)
    && (forall k, l :: 0 <= k < l < |p| ==> p[k] != p[l])
  }

  /** Follows recorded swaps from position `e` while they lie below `i`; stops where none was made. */
  ghost function Chase(p: seq<nat>, i: nat, e: nat): (c: nat)
    requires i <= |p|
    decreases i - e
  {
    if e >= i || p[e] <= e then e else Chase(p, i, p[e])
  }

  /** Recording the swap of `i` with `q` moves exactly the chases that ended at `i`. */
  lemma {:induction false} ChaseExtend(p: seq<nat>, i: nat, q: nat, e: nat)
    requires i < |p| && i <= q && i <= Chase(p, i, e)
    ensures Chase(p[i := q], i + 1, e) == if Chase(p, i, e) == i then q else Chase(p, i, e)
    decreases i - e
  {
    var p' := p[i := q];
    if e < i {
      ChaseExtend(p, i, q, p[e]);
    } else if e == i {
      assert q > i ==> Chase(p', i + 1, q) == q;
    }
  }

  ghost predicate Unplaced(order: seq<nat>, i: nat, e: nat)
    requires i <= |order|
  {
    e < |order| && e !in order[..i]
  }

  /** The state after `i` swaps: `at[k]` is the original position of the element now at `k`. */
  ghost predicate Placed(order: seq<nat>, p: seq<nat>, at: seq<nat>, i: nat) {
    && |p| == |at| == |order| && i <= |order|
    && (forall k :: 0 <= k < i ==> at[k] == order[k])
    && (forall k :: i <= k < |order| ==> p[k] == order[k])
    && (forall e :: Unplaced(order, i, e) ==> i <= Chase(p, i, e) < |at| && at[Chase(p, i, e)] == e)
  }

  lemma PlacedStart(order: seq<nat>, at: seq<nat>)
    requires |at| == |order| && forall k :: 0 <= k < |at| ==> at[k] == k
    ensures Placed(order, order, at, 0)
  {
  }

  /** An element not placed yet can still be found after the swap. */
  lemma StillFound(order: seq<nat>, p: seq<nat>, at: seq<nat>, i: nat, q: nat, e: nat)
    requires Placed(order, p, at, i) && i < |order| && i <= q < |order| && at[q] == order[i]
    requires Unplaced(order, i + 1, e)
    ensures var c := Chase(p[i := q], i + 1, e);
            i + 1 <= c < |at| && at[i := at[q]][q := at[i]][c] == e
  {
    assert order[..i + 1] == order[..i] + [order[i]];
    assert Unplaced(order, i, e) && e != order[i];
    ChaseExtend(p, i, q, e);
  }

  lemma PlacedStep(order: seq<nat>, p: seq<nat>, at: seq<nat>, i: nat, q: nat)
    requires IsPermutation(order) && Placed(order, p, at, i) && i < |order|
    requires i <= q < |order| && at[q] == order[i]
    ensures Placed(order, p[i := q], at[i := at[q]][q := at[i]], i + 1)
  {
    hide Chase, Unplaced, IsPermutation;
    var p', at', j := p[i := q], at[i := at[q]][q := at[i]], i + 1;
    forall e | Unplaced(order, j, e)
      ensures j <= Chase(p', j, e) < |at'| && at'[Chase(p', j, e)] == e
    {
      StillFound(order, p, at, i, q, e);
    }
  }

  /** The element that belongs at `i` is where the chase from its original position ends. */
  lemma ChaseFinds(order: seq<nat>, p: seq<nat>, at: seq<nat>, i: nat)
    requires IsPermutation(order) && Placed(order, p, at, i) && i < |order|
    ensures p[i] == order[i] && i <= Chase(p, i, order[i]) < |at| && at[Chase(p, i, order[i])] == order[i]
  {
  }

  lemma ChaseStep(p: seq<nat>, i: nat, e: nat)
    requires i <= |p| && e < i && i <= Chase(p, i, e)
    ensures p[e] > e && Chase(p, i, p[e]) == Chase(p, i, e)
  {
  }

  lemma ChaseEnd(p: seq<nat>, i: nat, e: nat)
    requires i <= |p| && i <= e
    ensures Chase(p, i, e) == e
  {
  }

  lemma PlacedEnd(order: seq<nat>, p: seq<nat>, at: seq<nat>)
    requires Placed(order, p, at, |order|)
    ensures at == order
  {
  }

  /** The inner loop: chases the element that belongs at `i` to where it is now. */
  method ChaseIndex<K>(indices: array<(K, nat)>, i: nat, ghost p: seq<nat>) returns (index: nat)
    requires i < indices.Length == |p| && i <= Chase(p, i, p[i])
    requires forall k :: 0 <= k < |p| ==> indices[k].1 == p[k]
    ensures index == Chase(p, i, p[i])
  {
    index := indices[i].1;
    while index < i
      invariant Chase(p, i, index) == Chase(p, i, p[i])
      decreases i - index
    {
      ChaseStep(p, i, index);
      index := indices[index].1;
    }
    ChaseEnd(p, i, index);
  }

  method Swap<T>(v: array<T>, i: nat, j: nat)
    requires i < v.Length && j < v.Length
    modifies v
    ensures v[..] == old(v[..])[i := old(v[..])[j]][j := old(v[..])[i]]
    ensures multiset(v[..]) == multiset(old(v[..]))
  {
    v[i], v[j] := v[j], v[i];
  }

  /** `t` is `s` with the element from position `at[k]` at position `k`. */
  ghost predicate Arranged<T>(s: seq<T>, t: seq<T>, at: seq<nat>) {
    |t| == |s| == |at| && forall k :: 0 <= k < |at| ==> at[k] < |s| && t[k] == s[at[k]]
  }

  lemma ArrangedStart<T>(s: seq<T>, at: seq<nat>)
    requires |at| == |s| && forall k :: 0 <= k < |at| ==> at[k] == k
    ensures Arranged(s, s, at)
  {
  }

  lemma ArrangedSwap<T>(s: seq<T>, t: seq<T>, at: seq<nat>, i: nat, j: nat)
    requires Arranged(s, t, at) && i < |s| && j < |s|
    ensures Arranged(s, t[i := t[j]][j := t[i]], at[i := at[j]][j := at[i]])
  {
  }

  /** One turn of the outer loop: the element that belongs at `i` is swapped there. */
  method PermuteStep<T, K>(v: array<T>, indices: array<(K, nat)>, ghost order: seq<nat>, ghost s: seq<T>,
                           ghost p: seq<nat>, ghost at: seq<nat>, i: nat)
    returns (ghost p': seq<nat>, ghost at': seq<nat>)
    requires v as object != indices as object && i < v.Length == indices.Length == |order| == |p| == |at|
    requires forall k :: 0 <= k < |p| ==> indices[k].1 == p[k]
    requires IsPermutation(order) && Arranged(s, v[..], at) && Placed(order, p, at, i)
    modifies v, indices
    ensures |p'| == |at'| == |order| && forall k :: 0 <= k < |p'| ==> indices[k].1 == p'[k]
    ensures Arranged(s, v[..], at') && Placed(order, p', at', i + 1)
    ensures multiset(v[..]) == multiset(old(v[..]))
  {
    hide IsPermutation, Placed, Chase;
    ChaseFinds(order, p, at, i);
    var index := ChaseIndex(indices, i, p);
    PlacedStep(order, p, at, i, index);
    ArrangedSwap(s, v[..], at, i, index);
    hide Arranged;
    indices[i] := (indices[i].0, index);
    Swap(v, i, index);
    p', at' := p[i := index], at[i := at[index]][index := at[i]];
  }

  /** The in-place permutation: `indices[k].1` names the element that belongs at `k`. */
  method Permute<T, K>(v: array<T>, indices: array<(K, nat)>, ghost order: seq<nat>)
    requires indices.Length == v.Length == |order| && IsPermutation(order)
    requires forall k :: 0 <= k < |order| ==> indices[k].1 == order[k]
    requires v as object != indices as object
    modifies v, indices
    ensures Arranged(old(v[..]), v[..], order)
    ensures multiset(v[..]) == multiset(old(v[..]))
  {
    hide IsPermutation, Placed, Chase, Arranged;
    ghost var s := v[..];
    ghost var at: seq<nat> := seq(v.Length, k requires 0 <= k < v.Length => k);
    ghost var p := order;
    PlacedStart(order, at);
    ArrangedStart(s, at);
    for i := 0 to v.Length
      invariant |p| == |at| == |order|
      invariant forall k :: 0 <= k < |p| ==> indices[k].1 == p[k]
      invariant Arranged(s, v[..], at)
      invariant Placed(order, p, at, i)
      invariant multiset(v[..]) == multiset(s)
    {
      p, at := PermuteStep(v, indices, order, s, p, at, i);
    }
    PlacedEnd(order, p, at);
  }

  // -----------------------------------------------------------------------------------------
  // The sort

  /** What `K: Ord` demands of `<=`.  Keys that compare equal need not be identical. */
  ghost predicate TotalPreorder<K(!new)>(leq: (K, K) -> bool) {
    && (forall a, b :: leq(a, b) || leq(b, a))
    && (forall a, b, c :: leq(a, b) && leq(b, c) ==> leq(a, c))
  }

  /** Pairs compare by key, then by position. */
  predicate PairLess<K>(leq: (K, K) -> bool, a: (K, nat), b: (K, nat)) {
    if leq(a.0, b.0) && leq(b.0, a.0) then a.1 < b.1 else leq(a.0, b.0)
  }

  lemma PairLessIsOrder<K(!new)>(leq: (K, K) -> bool, less: ((K, nat), (K, nat)) -> bool)
    requires TotalPreorder(leq) && forall a, b :: less(a, b) == PairLess(leq, a, b)
    ensures StrictWeakOrder(less)
  {
  }

  /** `sort_unstable` on the pairs: some sorted rearrangement.  `SortUnstableUnique` shows that
      no freedom is left, so using the stable sort here loses nothing.  `panics` says whether a
      comparison of keys panics; the pairs are then in some order. */
  method SortUnstable<K(!new)>(pairs: array<(K, nat)>, leq: (K, K) -> bool, panics: bool) returns (panicked: bool)
    requires TotalPreorder(leq)
    modifies pairs
    ensures panicked == panics && multiset(pairs[..]) == multiset(old(pairs[..]))
    ensures !panicked ==> forall i, j :: 0 <= i < j < pairs.Length ==> !PairLess(leq, pairs[j], pairs[i])
  {
    hide PairLess, TotalPreorder;
    if panics {
      return true;
    }
    var less := (a: (K, nat), b: (K, nat)) => PairLess(leq, a, b);
    PairLessIsOrder(leq, less);
    var cmp := new Comparator((_, a, b) => Answer(less(a, b)));
    panicked := MergeSort.Sort(pairs, cmp, less);
    assert cmp.Implements(less) && cmp.NeverPanics();
    assert forall i :: 0 <= i < pairs.Length ==> pairs[..][i] == pairs[i];
  }

  /** Where the only element of a class is `h`, the class is as many copies of it as there are. */
  lemma {:induction false} ClassOfOne<T>(less: (T, T) -> bool, g: T, h: T, s: seq<T>)
    requires Equiv(less, g, h) && forall x :: x in s && Equiv(less, g, x) ==> x == h
    ensures Class(less, g, s) == seq(multiset(s)[h], _ => h)
  {
    if s != [] {
      ClassOfOne(less, g, h, s[1..]);
      assert s == [s[0]] + s[1..];
    }
  }

  /** No two pairs have the same position. */
  ghost predicate Indexed<K>(s: seq<(K, nat)>) {
    forall i, j :: 0 <= i < j < |s| ==> s[i].1 != s[j].1
  }

  lemma SameClass<K(!new)>(leq: (K, K) -> bool, less: ((K, nat), (K, nat)) -> bool,
                           g: (K, nat), s: seq<(K, nat)>, t: seq<(K, nat)>)
    requires TotalPreorder(leq) && forall a, b :: less(a, b) == PairLess(leq, a, b)
    requires Indexed(s) && multiset(s) == multiset(t)
    ensures Class(less, g, s) == Class(less, g, t)
  {
    assert forall x :: x in t <==> x in multiset(t);
    assert forall x :: x in s <==> x in multiset(s);
    if h :| h in s && Equiv(less, g, h) {
      forall x | x in s && Equiv(less, g, x)
        ensures x == h
      {
        assert x.1 == h.1 == g.1;
      }
      ClassOfOne(less, g, h, s);
      ClassOfOne(less, g, h, t);
    } else {
      ClassNone(less, g, s);
      ClassNone(less, g, t);
    }
  }

  /** Indexed pairs have one sorted order only, so an unstable sort of them is as good as a stable one. */
  lemma SortUnstableUnique<K(!new)>(leq: (K, K) -> bool, s: seq<(K, nat)>, t: seq<(K, nat)>)
    requires TotalPreorder(leq) && Indexed(s) && multiset(s) == multiset(t)
    requires forall i, j :: 0 <= i < j < |s| ==> !PairLess(leq, s[j], s[i])
    requires forall i, j :: 0 <= i < j < |t| ==> !PairLess(leq, t[j], t[i])
    ensures s == t
  {
    hide PairLess, TotalPreorder, Indexed;
    var less := (a: (K, nat), b: (K, nat)) => PairLess(leq, a, b);
    PairLessIsOrder(leq, less);
    forall g: (K, nat)
      ensures Class(less, g, s) == Class(less, g, t)
    {
      SameClass(leq, less, g, s, t);
    }
    StableSortUnique(less, s, t);
  }

  /** The integer type the positions are stored in. */
  datatype Width = U8 | U16 | U32 | Usize

  function MaxOf(w: Width): nat {
    match w
    case U8 => 0xFF
    case U16 => 0xFFFF
    case U32 => 0xFFFF_FFFF
    case Usize => USIZE_MAX
  }

  /** Sizes in bytes of a key paired with an index of each width. */
  datatype PairSizes = PairSizes(u8: nat, u16: nat, u32: nat, usize: nat)

  function SizeOf(sz: PairSizes, w: Width): nat {
    match w
    case U8 => sz.u8
    case U16 => sz.u16
    case U32 => sz.u32
    case Usize => sz.usize
  }

  /** A width that can count the slice, with the smallest pairs there are for it; of several such widths
      the widest. */
  function ChooseWidth(sz: PairSizes, len: nat): (w: Width)
    requires len <= USIZE_MAX
    ensures len <= MaxOf(w)
    ensures sz.u8 <= sz.u16 <= sz.u32 <= sz.usize ==>
              forall v :: len <= MaxOf(v) ==>
                SizeOf(sz, w) < SizeOf(sz, v) || (SizeOf(sz, w) == SizeOf(sz, v) && MaxOf(w) >= MaxOf(v))
  {
    if sz.u8 < sz.u16 && len <= MaxOf(U8) then U8
    else if sz.u16 < sz.u32 && len <= MaxOf(U16) then U16
    else if sz.u32 < sz.usize && len <= MaxOf(U32) then U32
    else Usize
  }

  /** `i as $t`: truncates to the width. */
  function Cast(i: nat, w: Width): nat {
    i % (MaxOf(w) + 1)
  }

  ghost predicate Distinct<X>(s: seq<X>) {
    forall i, j :: 0 <= i < j < |s| ==> s[i] != s[j]
  }

  lemma {:induction false} DistinctCounts<X(!new)>(s: seq<X>)
    ensures Distinct(s) <==> forall x :: multiset(s)[x] <= 1
  {
    if s != [] {
      DistinctCounts(s[1..]);
      assert s == [s[0]] + s[1..];
      if Distinct(s) {
        assert s[0] !in s[1..];
      } else if Distinct(s[1..]) {
        var j :| 0 < j < |s| && s[0] == s[j];
        assert s[j] == s[1..][j - 1];
        assert s[0] in multiset(s[1..]);
        assert multiset(s)[s[0]] > 1;
      } else {
        var x :| multiset(s[1..])[x] > 1;
        assert multiset(s)[x] > 1;
      }
    }
  }

  /** A key function: what its call on element `i` gives, or a panic. */
  type KeyFunction<!T, !K> = (nat, T) -> Option<K>

  /** Every key can be computed. */
  ghost predicate AllKeys<T, K>(f: KeyFunction<T, K>, s: seq<T>) {
    forall i :: 0 <= i < |s| ==> f(i, s[i]).Some?
  }

  ghost function KeyAt<T, K>(f: KeyFunction<T, K>, s: seq<T>, i: nat): K
    requires AllKeys(f, s) && i < |s|
  {
    f(i, s[i]).value
  }

  /** The pairs the source collects: call `i` of `f` is made on element `i`. */
  ghost predicate Collected<T, K>(f: KeyFunction<T, K>, s: seq<T>, pairs: seq<(K, nat)>)
    requires AllKeys(f, s)
  {
    |pairs| == |s| && forall i :: 0 <= i < |s| ==> pairs[i] == (KeyAt(f, s, i), i)
  }

  /** A rearrangement of the collected pairs names every position once, with its own key. */
  lemma RearrangedPairs<T, K(!new)>(f: KeyFunction<T, K>, s: seq<T>, pairs: seq<(K, nat)>, q: seq<(K, nat)>,
                                    order: seq<nat>)
    requires AllKeys(f, s) && Collected(f, s, pairs) && multiset(q) == multiset(pairs)
    requires |order| == |q| && forall k :: 0 <= k < |q| ==> order[k] == q[k].1
    ensures |q| == |s| && IsPermutation(order)
    ensures forall k :: 0 <= k < |q| ==> q[k] == (KeyAt(f, s, order[k]), order[k])
    ensures Distinct(q)
  {
    assert |q| == |multiset(q)| == |multiset(pairs)| == |pairs|;
    forall k | 0 <= k < |q|
      ensures order[k] < |s| && q[k] == (KeyAt(f, s, order[k]), order[k])
    {
      assert q[k] in multiset(pairs);
    }
    DistinctCounts(pairs);
    DistinctCounts(q);
  }

  /** Computes every key once and pairs it with its position, cast to the width chosen; `None` is a
      panic of the key function. */
  method Collect<T, K>(v: array<T>, f: KeyFunction<T, K>, w: Width) returns (r: Option<array<(K, nat)>>)
    requires 0 < v.Length <= MaxOf(w)
    ensures r.Some? <==> AllKeys(f, v[..])
    ensures r.Some? ==> fresh(r.value) && Collected(f, v[..], r.value[..])
  {
    hide MaxOf;
    var first := f(0, v[0]);
    if first.None? {
      assert f(0, v[..][0]).None?;
      return None;
    }
    var indices := new (K, nat)[v.Length](_ => (first.value, 0));
    for i := 0 to v.Length
      invariant forall k :: 0 <= k < i ==> f(k, v[..][k]) == Some(indices[k].0) && indices[k].1 == k
    {
      CastFits(i, w);
      var key := f(i, v[i]);
      if key.None? {
        assert f(i, v[..][i]).None?;
        return None;
      }
      indices[i] := (key.value, Cast(i, w));
    }
    r := Some(indices);
  }

  lemma CastFits(i: nat, w: Width)
    requires i <= MaxOf(w)
    ensures Cast(i, w) == i
  {
  }

  /** Sorted pairs with different positions are strictly ordered. */
  lemma StrictlySorted<K(!new)>(leq: (K, K) -> bool, q: seq<(K, nat)>, order: seq<nat>, k: nat, l: nat)
    requires TotalPreorder(leq) && k < l < |q| == |order| && !PairLess(leq, q[l], q[k])
    requires IsPermutation(order) && forall k :: 0 <= k < |q| ==> order[k] == q[k].1
    ensures PairLess(leq, q[k], q[l])
  {
  }

  /** The slice ends up ordered by cached key, and by original position among equal keys.  A panic of
      the key function or of a comparison leaves it as it was. */
  method SortByCachedKey<T, K(!new)>(v: array<T>, f: KeyFunction<T, K>, leq: (K, K) -> bool, panics: bool,
                                     sz: PairSizes)
    returns (panicked: bool, ghost order: seq<nat>)
    requires TotalPreorder(leq) && v.Length <= USIZE_MAX
    modifies v
    ensures panicked <==> v.Length >= 2 && (panics || !AllKeys(f, old(v[..])))
    ensures panicked ==> v[..] == old(v[..])
    ensures |order| == v.Length && IsPermutation(order) && Arranged(old(v[..]), v[..], order)
    ensures !panicked && v.Length >= 2 ==>
              forall k, l :: 0 <= k < l < v.Length ==>
                PairLess(leq, (KeyAt(f, old(v[..]), order[k]), order[k]), (KeyAt(f, old(v[..]), order[l]), order[l]))
    ensures multiset(v[..]) == multiset(old(v[..]))
  {
    var len := v.Length;
    order, panicked := seq(len, k requires 0 <= k < len => k), false;
    if len < 2 {
      return;
    }
    ghost var s := v[..];
    ArrangedStart(s, order);
    hide PairLess, TotalPreorder, Collected, KeyAt, AllKeys, Distinct, Arranged;
    var collected := Collect(v, f, ChooseWidth(sz, len));
    if collected.None? {
      panicked := true;
      return;
    }
    var indices := collected.value;
    ghost var pairs := indices[..];
    panicked := SortUnstable(indices, leq, panics);
    if panicked {
      return;
    }
    ghost var q := indices[..];
    order := seq(len, k requires 0 <= k < len => q[k].1);
    RearrangedPairs(f, s, pairs, q, order);
    forall k, l | 0 <= k < l < len
      ensures PairLess(leq, q[k], q[l])
    {
      assert !PairLess(leq, indices[l], indices[k]);
      StrictlySorted(leq, q, order, k, l);
    }
    Permute(v, indices, order);
  }
}
