/** The stable merge of two sorted runs, from the front and from the back, as functions on
    sequences. */
module Merging {
  import opened Slices
  import opened Ordering

  /** The textbook stable merge: ties go to the left run. */
  ghost function StableMerge<T>(less: (T, T) -> bool, a: seq<T>, b: seq<T>): (r: seq<T>)
    ensures |r| == |a| + |b|
    ensures forall x :: x in r ==> x in a || x in b
    decreases |a| + |b|
  {
    if a == [] then b
    else if b == [] then a
    else if less(b[0], a[0]) then [b[0]] + StableMerge(less, a, b[1..])
    else [a[0]] + StableMerge(less, a[1..], b)
  }

  /** The same two runs merged from their ends: ties go to the right run. */
  ghost function BackwardMerge<T>(less: (T, T) -> bool, a: seq<T>, b: seq<T>): (r: seq<T>)
    ensures |r| == |a| + |b|
    ensures forall x :: x in r ==> x in a || x in b
    decreases |a| + |b|
  {
    if a == [] then b
    else if b == [] then a
    else
      var i, j := |a| - 1, |b| - 1;
      if less(b[j], a[i]) then BackwardMerge(less, a[..i], b) + [a[i]]
      else BackwardMerge(less, a, b[..j]) + [b[j]]
  }

  lemma {:induction false} MergeSorted<T(!new)>(less: (T, T) -> bool, a: seq<T>, b: seq<T>)
    requires StrictWeakOrder(less) && Sorted(less, a) && Sorted(less, b)
    ensures Sorted(less, StableMerge(less, a, b))
    decreases |a| + |b|
  {
    if a != [] && b != [] {
      if less(b[0], a[0]) {
        MergeSorted(less, a, b[1..]);
        ConsSorted(less, b[0], StableMerge(less, a, b[1..]), a, b[1..]);
      } else {
        MergeSorted(less, a[1..], b);
        ConsSorted(less, a[0], StableMerge(less, a[1..], b), a[1..], b);
      }
    }
  }

  lemma ConsSorted<T(!new)>(less: (T, T) -> bool, x: T, r: seq<T>, a: seq<T>, b: seq<T>)
    requires StrictWeakOrder(less) && Sorted(less, r) && Sorted(less, a) && Sorted(less, b)
    requires forall y :: y in r ==> y in a || y in b
    requires a != [] ==> !less(a[0], x)
    requires b != [] ==> !less(b[0], x)
    ensures Sorted(less, [x] + r)
  {
    forall y | y in r
      ensures !less(y, x)
    {
      if y in a {
        var i :| 0 <= i < |a| && a[i] == y;
        assert i == 0 || !less(a[i], a[0]);
      } else {
        var i :| 0 <= i < |b| && b[i] == y;
        assert i == 0 || !less(b[i], b[0]);
      }
    }
  }

  lemma SnocSorted<T(!new)>(less: (T, T) -> bool, r: seq<T>, x: T, a: seq<T>, b: seq<T>)
    requires StrictWeakOrder(less) && Sorted(less, r) && Sorted(less, a) && Sorted(less, b)
    requires forall y :: y in r ==> y in a || y in b
    requires a != [] ==> !less(x, a[|a| - 1])
    requires b != [] ==> !less(x, b[|b| - 1])
    ensures Sorted(less, r + [x])
  {
    forall y | y in r
      ensures !less(x, y)
    {
      if y in a {
        var i :| 0 <= i < |a| && a[i] == y;
        assert i == |a| - 1 || !less(a[|a| - 1], a[i]);
      } else {
        var i :| 0 <= i < |b| && b[i] == y;
        assert i == |b| - 1 || !less(b[|b| - 1], b[i]);
      }
    }
  }

  lemma {:induction false} BackwardSorted<T(!new)>(less: (T, T) -> bool, a: seq<T>, b: seq<T>)
    requires StrictWeakOrder(less) && Sorted(less, a) && Sorted(less, b)
    ensures Sorted(less, BackwardMerge(less, a, b))
    decreases |a| + |b|
  {
    if a != [] && b != [] {
      var i, j := |a| - 1, |b| - 1;
      if less(b[j], a[i]) {
        BackwardSorted(less, a[..i], b);
        SnocSorted(less, BackwardMerge(less, a[..i], b), a[i], a[..i], b);
      } else {
        BackwardSorted(less, a, b[..j]);
        SnocSorted(less, BackwardMerge(less, a, b[..j]), b[j], a, b[..j]);
      }
    }
  }

  /** An element strictly on one side of a whole run shares no class with it. */
  lemma ClassApart<T(!new)>(less: (T, T) -> bool, g: T, x: T, s: seq<T>)
    requires StrictWeakOrder(less)
    requires forall y :: y in s ==> less(x, y) || less(y, x)
    ensures Class(less, g, [x]) == [] || Class(less, g, s) == []
  {
  }

  /** What is below the head of a sorted run is below all of it. */
  lemma BelowAll<T(!new)>(less: (T, T) -> bool, x: T, s: seq<T>)
    requires StrictWeakOrder(less) && Sorted(less, s) && s != [] && less(x, s[0])
    ensures forall y :: y in s ==> less(x, y)
  {
    forall y | y in s
      ensures less(x, y)
    {
      var i :| 0 <= i < |s| && s[i] == y;
      assert i == 0 || !less(s[i], s[0]);
    }
  }

  /** What is above the end of a sorted run is above all of it. */
  lemma AboveAll<T(!new)>(less: (T, T) -> bool, x: T, s: seq<T>)
    requires StrictWeakOrder(less) && Sorted(less, s) && s != [] && less(s[|s| - 1], x)
    ensures forall y :: y in s ==> less(y, x)
  {
    forall y | y in s
      ensures less(y, x)
    {
      var i :| 0 <= i < |s| && s[i] == y;
      assert i == |s| - 1 || !less(s[|s| - 1], s[i]);
    }
  }

  lemma {:induction false} MergeStable<T(!new)>(less: (T, T) -> bool, g: T, a: seq<T>, b: seq<T>)
    requires StrictWeakOrder(less) && Sorted(less, a)
    ensures Class(less, g, StableMerge(less, a, b)) == Class(less, g, a) + Class(less, g, b)
    decreases |a| + |b|
  {
    hide Class;
    if a == [] {
      ClassEmpty(less, g);
    } else if b == [] {
      ClassEmpty(less, g);
    } else if less(b[0], a[0]) {
      MergeStable(less, g, a, b[1..]);
      ClassConcat(less, g, [b[0]], StableMerge(less, a, b[1..]));
      ClassConcat(less, g, [b[0]], b[1..]);
      assert b == [b[0]] + b[1..];
      BelowAll(less, b[0], a);
      ClassApart(less, g, b[0], a);
      Exchange(Class(less, g, [b[0]]), Class(less, g, a), Class(less, g, b[1..]));
    } else {
      MergeStable(less, g, a[1..], b);
      ClassConcat(less, g, [a[0]], StableMerge(less, a[1..], b));
      ClassConcat(less, g, [a[0]], a[1..]);
      assert a == [a[0]] + a[1..];
      Assoc(Class(less, g, [a[0]]), Class(less, g, a[1..]), Class(less, g, b));
    }
  }

  lemma Exchange<T>(x: seq<T>, a: seq<T>, b: seq<T>)
    requires x == [] || a == []
    ensures x + (a + b) == a + (x + b)
  {
  }

  lemma ExchangeBack<T>(a: seq<T>, x: seq<T>, b: seq<T>)
    requires x == [] || b == []
    ensures (a + b) + x == (a + x) + b
  {
  }

  lemma {:induction false} BackwardStable<T(!new)>(less: (T, T) -> bool, g: T, a: seq<T>, b: seq<T>)
    requires StrictWeakOrder(less) && Sorted(less, b)
    ensures Class(less, g, BackwardMerge(less, a, b)) == Class(less, g, a) + Class(less, g, b)
    decreases |a| + |b|
  {
    hide Class;
    if a == [] {
      ClassEmpty(less, g);
    } else if b == [] {
      ClassEmpty(less, g);
    } else if less(b[|b| - 1], a[|a| - 1]) {
      var c, x := a[..|a| - 1], a[|a| - 1];
      BackwardStable(less, g, c, b);
      ClassConcat(less, g, BackwardMerge(less, c, b), [x]);
      ClassConcat(less, g, c, [x]);
      assert a == c + [x];
      AboveAll(less, x, b);
      ClassApart(less, g, x, b);
      ExchangeBack(Class(less, g, c), Class(less, g, [x]), Class(less, g, b));
    } else {
      var c, x := b[..|b| - 1], b[|b| - 1];
      BackwardStable(less, g, a, c);
      ClassConcat(less, g, BackwardMerge(less, a, c), [x]);
      ClassConcat(less, g, c, [x]);
      assert b == c + [x];
      Assoc(Class(less, g, a), Class(less, g, c), Class(less, g, [x]));
    }
  }

  /** The merge of two sorted runs is their sorted stable rearrangement. */
  lemma MergeCorrect<T(!new)>(less: (T, T) -> bool, a: seq<T>, b: seq<T>)
    requires StrictWeakOrder(less) && Sorted(less, a) && Sorted(less, b)
    ensures Sorted(less, StableMerge(less, a, b)) && Stable(less, a + b, StableMerge(less, a, b))
  {
    MergeSorted(less, a, b);
    forall g
      ensures Class(less, g, a + b) == Class(less, g, StableMerge(less, a, b))
    {
      MergeStable(less, g, a, b);
      ClassConcat(less, g, a, b);
    }
  }

  /** Both directions of the merge agree on sorted runs. */
  lemma DirectionsAgree<T(!new)>(less: (T, T) -> bool, a: seq<T>, b: seq<T>)
    requires StrictWeakOrder(less) && Sorted(less, a) && Sorted(less, b)
    ensures BackwardMerge(less, a, b) == StableMerge(less, a, b)
  {
    MergeSorted(less, a, b);
    BackwardSorted(less, a, b);
    forall g
      ensures Class(less, g, BackwardMerge(less, a, b)) == Class(less, g, StableMerge(less, a, b))
    {
      MergeStable(less, g, a, b);
      BackwardStable(less, g, a, b);
    }
    StableSortUnique(less, BackwardMerge(less, a, b), StableMerge(less, a, b));
  }
}
