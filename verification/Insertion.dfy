/** `insert_head`: the insertion step of the sort, with its panic-safe hole. */
module Insertion {
  import opened Ordering

  /** `x` placed before the first element of `s` that is not below it. */
  ghost function Insert<T>(less: (T, T) -> bool, x: T, s: seq<T>): (r: seq<T>)
    ensures |r| == |s| + 1
    ensures forall y :: y in r ==> y == x || y in s
  {
    if s == [] || !less(s[0], x) then [x] + s
    else [s[0]] + Insert(less, x, s[1..])
  }

  lemma {:induction false} InsertSorted<T>(less: (T, T) -> bool, x: T, s: seq<T>)
    requires forall a, b :: less(a, b) ==> !less(b, a)
    requires forall a, b, c :: !less(b, a) && !less(c, b) ==> !less(c, a)
    requires Sorted(less, s)
    ensures Sorted(less, Insert(less, x, s))
  {
    var r := Insert(less, x, s);
    if s == [] {
    } else if !less(s[0], x) {
      forall i, j | 0 <= i < j < |r|
        ensures !less(r[j], r[i])
      {
        if i == 0 && j > 1 { assert !less(s[j - 1], s[0]); }
      }
    } else {
      var t := Insert(less, x, s[1..]);
      InsertSorted(less, x, s[1..]);
      assert forall j :: 0 <= j < |t| ==> t[j] == x || t[j] in s[1..];
    }
  }

  lemma {:induction false} InsertStable<T(!new)>(less: (T, T) -> bool, g: T, x: T, s: seq<T>)
    requires StrictWeakOrder(less)
    ensures Class(less, g, Insert(less, x, s)) == Class(less, g, [x] + s)
  {
    if s == [] || !less(s[0], x) {
    } else {
      InsertStable(less, g, x, s[1..]);
      var t := Insert(less, x, s[1..]);
      assert Class(less, g, [x] + s[1..]) == Class(less, g, [x]) + Class(less, g, s[1..]) by {
        ClassConcat(less, g, [x], s[1..]);
      }
      ClassConcat(less, g, [s[0]], t);
      ClassConcat(less, g, [x], s);
      ClassConcat(less, g, [s[0]], s[1..]);
      assert s == [s[0]] + s[1..];
      // x and s[0] are not both equivalent to g, so their classes commute
      assert Class(less, g, [x]) == [] || Class(less, g, [s[0]]) == [];
    }
  }

  /** Insertion sorts stably: the head moves right past exactly the elements below it. */
  lemma {:induction false} InsertCorrect<T(!new)>(less: (T, T) -> bool, x: T, s: seq<T>)
    requires StrictWeakOrder(less) && Sorted(less, s)
    ensures Sorted(less, Insert(less, x, s)) && Stable(less, [x] + s, Insert(less, x, s))
  {
    InsertSorted(less, x, s);
    forall g
      ensures Class(less, g, [x] + s) == Class(less, g, Insert(less, x, s))
    {
      InsertStable(less, g, x, s);
    }
  }

  /** Everything outside `lo..hi` is as it was. */
  ghost predicate OnlyWindow<T>(s: seq<T>, t: seq<T>, lo: nat, hi: nat)
    requires lo <= hi <= |s|
  {
    |t| == |s| && t[..lo] == s[..lo] && t[hi..] == s[hi..]
  }

  /** The window `s` with its head moved to position `d`. */
  ghost function HeadMoved<T>(s: seq<T>, d: nat): (r: seq<T>)
    requires d < |s|
  {
    s[1..d + 1] + [s[0]] + s[d + 1..]
  }

  lemma HeadMovedKeepsElements<T>(s: seq<T>, d: nat)
    requires d < |s|
    ensures multiset(HeadMoved(s, d)) == multiset(s)
  {
    assert s == [s[0]] + s[1..d + 1] + s[d + 1..];
  }

  lemma HeadBack<T>(s: seq<T>, d: nat, x: T)
    requires 0 < d <= |s|
    ensures [s[0]] + (s[1..][..d - 1] + [x] + s[1..][d - 1..]) == s[..d] + [x] + s[d..]
  {
    assert [s[0]] + s[1..][..d - 1] == s[..d] && s[1..][d - 1..] == s[d..];
  }

  /** The elements below the head are exactly the ones it has been carried past. */
  lemma {:induction false} InsertAt<T>(less: (T, T) -> bool, x: T, s: seq<T>, d: nat)
    requires d <= |s|
    requires forall k :: 0 <= k < d ==> less(s[k], x)
    requires d < |s| ==> !less(s[d], x)
    ensures Insert(less, x, s) == s[..d] + [x] + s[d..]
    decreases d
  {
    if d == 0 {
      assert s[..0] + [x] + s[0..] == [x] + s;
    } else {
      InsertAt(less, x, s[1..], d - 1);
      HeadBack(s, d, x);
    }
  }

  /** Where the hole of `insert_head` may stand: everything before it was carried down. */
  ghost predicate Carried<T>(s: seq<T>, t: seq<T>, lo: nat, hi: nat, dest: nat)
    requires lo <= dest < hi <= |s|
  {
    && |t| == |s|
    && (forall k :: 0 <= k < lo ==> t[k] == s[k])
    && (forall k :: lo <= k < dest ==> t[k] == s[k + 1])
    && (forall k :: dest < k < |s| ==> t[k] == s[k])
  }

  lemma HoleMoved<T>(s: seq<T>, t: seq<T>, lo: nat, hi: nat, dest: nat)
    requires lo <= dest < hi <= |s| && Carried(s, t, lo, hi, dest) && t[dest] == s[lo]
    ensures t[lo..hi] == HeadMoved(s[lo..hi], dest - lo)
  {
    var w, r, d := s[lo..hi], t[lo..hi], dest - lo;
    forall k | 0 <= k < hi - lo
      ensures r[k] == HeadMoved(w, d)[k]
    {
      var q := lo + k;
      assert r[k] == t[q] && (k < d ==> t[q] == s[q + 1] == w[k + 1]);
    }
  }

  /** Dropping the hole puts the saved head back, so no element is lost or doubled. */
  lemma HoleFilled<T>(s: seq<T>, t: seq<T>, lo: nat, hi: nat, dest: nat)
    requires lo <= dest < hi <= |s| && Carried(s, t, lo, hi, dest) && t[dest] == s[lo]
    ensures OnlyWindow(s, t, lo, hi)
    ensures t[lo..hi] == HeadMoved(s[lo..hi], dest - lo)
    ensures multiset(t[lo..hi]) == multiset(s[lo..hi])
  {
    hide HeadMoved;
    HoleMoved(s, t, lo, hi, dest);
    HeadMovedKeepsElements(s[lo..hi], dest - lo);
  }

  /** The slots the head was carried past are below it, and the next one is not. */
  ghost predicate StopsAt<T>(less: (T, T) -> bool, s: seq<T>, lo: nat, hi: nat, dest: nat)
    requires lo <= dest < hi <= |s|
  {
    && (forall k :: lo < k <= dest ==> less(s[k], s[lo]))
    && (dest + 1 < hi ==> !less(s[dest + 1], s[lo]))
  }

  lemma StopsAtInsert<T>(less: (T, T) -> bool, s: seq<T>, lo: nat, hi: nat, dest: nat)
    requires lo <= dest < hi <= |s| && StopsAt(less, s, lo, hi, dest)
    ensures HeadMoved(s[lo..hi], dest - lo) == Insert(less, s[lo], s[lo + 1..hi])
  {
    var w, d := s[lo + 1..hi], dest - lo;
    InsertAt(less, s[lo], w, d);
    assert s[lo..hi][1..d + 1] == w[..d] && s[lo..hi][d + 1..] == w[d..];
  }

  lemma CarryNone<T>(s: seq<T>, lo: nat, hi: nat)
    requires lo < hi <= |s|
    ensures Carried(s, s, lo, hi, lo)
  {
  }

  lemma CarryOne<T>(s: seq<T>, t: seq<T>, lo: nat, hi: nat, dest: nat)
    requires lo <= dest < hi - 1 && hi <= |s| && Carried(s, t, lo, hi, dest)
    ensures |t| == |s| && t[dest + 1] == s[dest + 1]
    ensures Carried(s, t[dest := t[dest + 1]], lo, hi, dest + 1)
  {
  }

  /** The carrying loop of `insert_head`: stops at the final place of the head, or at a panic. */
  method CarryHead<T(!new)>(v: array<T>, lo: nat, hi: nat, tmp: T, cmp: Comparator<T>, ghost less: (T, T) -> bool)
    returns (dest: nat, panicked: bool)
    requires lo + 1 < hi <= v.Length && tmp == v[lo]
    requires !cmp.unwinding
    modifies v, cmp
    ensures lo < dest < hi
    ensures Carried(old(v[..]), v[..], lo, hi, dest)
    ensures old(cmp.calls) <= cmp.calls < old(cmp.calls) + hi - lo - 1
    ensures cmp.Tells(panicked)
    ensures cmp.Implements(less) && !panicked && less(old(v[lo + 1]), tmp) ==>
              StopsAt(less, old(v[..]), lo, hi, dest)
  {
    hide Carried;
    ghost var s := v[..];
    CarryNone(s, lo, hi);
    CarryOne(s, s, lo, hi, lo);
    v[lo] := v[lo + 1];
    assert v[..] == s[lo := s[lo + 1]];
    dest, panicked := lo + 1, false;
    while dest + 1 < hi
      invariant lo < dest < hi && !panicked && cmp.Tells(false)
      invariant Carried(s, v[..], lo, hi, dest)
      invariant old(cmp.calls) <= cmp.calls < old(cmp.calls) + dest - lo
      invariant cmp.Implements(less) && less(s[lo + 1], tmp) ==> forall k :: lo < k <= dest ==> less(s[k], s[lo])
    {
      ghost var t := v[..];
      CarryOne(s, t, lo, hi, dest);
      assert v[dest + 1] == t[dest + 1];
      var r := cmp.IsLess(v[dest + 1], tmp);
      if r.Panic? {
        panicked := true;
        break;
      }
      if !r.less {
        break;
      }
      v[dest] := v[dest + 1];
      assert v[..] == t[dest := t[dest + 1]];
      dest := dest + 1;
    }
  }

  lemma CarryFill<T>(s: seq<T>, t: seq<T>, lo: nat, hi: nat, dest: nat)
    requires lo <= dest < hi <= |s| && Carried(s, t, lo, hi, dest)
    ensures |t| == |s| && Carried(s, t[dest := s[lo]], lo, hi, dest)
  {
  }

  lemma InsertNone<T>(less: (T, T) -> bool, s: seq<T>, lo: nat, hi: nat)
    requires lo <= hi <= |s| && hi - lo < 2
    ensures lo < hi ==> s[lo..hi] == Insert(less, s[lo], s[lo + 1..hi])
  {
  }

  /** Inserts `v[lo]` into `v[lo + 1..hi]`.  Whatever the comparator does, the window keeps its
      elements, also when a panic drops the hole half-way. */
  method InsertHead<T(!new)>(v: array<T>, lo: nat, hi: nat, cmp: Comparator<T>, ghost less: (T, T) -> bool)
    returns (panicked: bool)
    requires lo <= hi <= v.Length
    requires !cmp.unwinding
    modifies v, cmp
    ensures OnlyWindow(old(v[..]), v[..], lo, hi)
    ensures multiset(v[lo..hi]) == multiset(old(v[lo..hi]))
    ensures old(cmp.calls) <= cmp.calls
    ensures cmp.calls == old(cmp.calls) || cmp.calls < old(cmp.calls) + hi - lo
    ensures cmp.Tells(panicked)
    ensures cmp.Implements(less) && !panicked && lo < hi ==>
              v[lo..hi] == Insert(less, old(v[lo]), old(v[lo + 1..hi]))
    ensures cmp.Implements(less) && !panicked && lo + 1 < hi && !less(old(v[lo + 1]), old(v[lo])) ==>
              v[..] == old(v[..]) && cmp.calls == old(cmp.calls) + 1
  {
    hide Insert, HeadMoved, Carried;
    if hi - lo < 2 {
      InsertNone(less, v[..], lo, hi);
      return false;
    }
    ghost var s := v[..];
    assert v[lo..hi] == s[lo..hi] && v[lo + 1..hi] == s[lo + 1..hi];
    var r := cmp.IsLess(v[lo + 1], v[lo]);
    if r.Panic? {
      return true;
    }
    var dest := lo;
    panicked := false;
    CarryNone(s, lo, hi);
    if r.less {
      var tmp := v[lo];
      dest, panicked := CarryHead(v, lo, hi, tmp, cmp, less);
      ghost var t := v[..];
      CarryFill(s, t, lo, hi, dest);
      v[dest] := tmp;  // the hole is dropped
      assert v[..] == t[dest := s[lo]];
    }
    HoleFilled(s, v[..], lo, hi, dest);
    assert v[lo..hi] == v[..][lo..hi];
    if cmp.Implements(less) && !panicked {
      assert StopsAt(less, s, lo, hi, dest);
      StopsAtInsert(less, s, lo, hi, dest);
    }
  }
}
