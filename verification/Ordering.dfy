/** Orders, comparators and the vocabulary in which sorting is specified.

    A comparator is the closure `is_less` of the sort: it may keep state, answer inconsistently,
    and panic at any call.  All of this is captured by an oracle indexed by the call number. */
module Ordering {
  import opened Slices

  /** One call of `is_less`: it answers, or it panics. */
  datatype Verdict = Answer(less: bool) | Panic

  /** The mutable closure `is_less`.  `calls` counts its invocations; the oracle fixes what each
      invocation does, so every stateful, inconsistent or panicking closure is some oracle.  While a
      panic of the closure unwinds it is not called again; whoever catches the panic clears
      `unwinding`. */
  class Comparator<T(!new)> {
    const oracle: (nat, T, T) -> Verdict
    var calls: nat
    ghost var unwinding: bool

    constructor (oracle: (nat, T, T) -> Verdict)
      ensures this.oracle == oracle && calls == 0 && !unwinding
    {
      this.oracle := oracle;
      calls := 0;
      unwinding := false;
    }

    /** Whenever the closure answers, it answers by the relation `less`. */
    ghost predicate Implements(less: (T, T) -> bool) {
      forall n: nat, a, b :: oracle(n, a, b) == Panic || oracle(n, a, b) == Answer(less(a, b))
    }

    ghost predicate NeverPanics() {
      forall n: nat, a, b :: oracle(n, a, b) != Panic
    }

    /** `panicked` says whether the closure is unwinding, which it only is after a panic of its own. */
    ghost predicate Tells(panicked: bool)
      reads this
    {
      panicked == unwinding && (NeverPanics() ==> !panicked)
    }

    method IsLess(a: T, b: T) returns (r: Verdict)
      requires !unwinding
      modifies this
      ensures r == oracle(old(calls), a, b) && calls == old(calls) + 1 && Tells(r.Panic?)
    {
      r := oracle(calls, a, b);
      calls := calls + 1;
      unwinding := r.Panic?;
    }
  }

  /** Asymmetric and negatively transitive; `StrictWeakOrderIsStandard` gives the textbook form. */
  ghost predicate StrictWeakOrder<T(!new)>(less: (T, T) -> bool) {
    && (forall a, b :: less(a, b) ==> !less(b, a))
    && (forall a, b, c :: !less(b, a) && !less(c, b) ==> !less(c, a))
  }

  predicate Equiv<T>(less: (T, T) -> bool, a: T, b: T) {
    !less(a, b) && !less(b, a)
  }

  lemma StrictWeakOrderIsStandard<T(!new)>(less: (T, T) -> bool)
    ensures StrictWeakOrder(less) <==>
            && (forall a :: !less(a, a))
            && (forall a, b, c :: less(a, b) && less(b, c) ==> less(a, c))
            && (forall a, b, c :: Equiv(less, a, b) && Equiv(less, b, c) ==> Equiv(less, a, c))
  {
    if && (forall a :: !less(a, a))
       && (forall a, b, c :: less(a, b) && less(b, c) ==> less(a, c))
       && (forall a, b, c :: Equiv(less, a, b) && Equiv(less, b, c) ==> Equiv(less, a, c))
    {
      forall a, b, c | !less(b, a) && !less(c, b)
        ensures !less(c, a)
      {
        // comparing b with either end would put it inside the chain c < a
        assert less(c, a) ==> Equiv(less, a, b) && Equiv(less, b, c);
      }
    }
  }

  ghost predicate Sorted<T>(less: (T, T) -> bool, s: seq<T>) {
    forall i, j :: 0 <= i < j < |s| ==> !less(s[j], s[i])
  }

  /** The subsequence of `s` that is equivalent to `g`, in order. */
  ghost function Class<T>(less: (T, T) -> bool, g: T, s: seq<T>): (r: seq<T>)
    ensures |r| <= |s|
  {
    if s == [] then []
    else if Equiv(less, g, s[0]) then [s[0]] + Class(less, g, s[1..])
    else Class(less, g, s[1..])
  }

  /** `t` keeps every equivalence class of `s` with its elements in their original order. */
  ghost predicate Stable<T(!new)>(less: (T, T) -> bool, s: seq<T>, t: seq<T>) {
    forall g :: Class(less, g, s) == Class(less, g, t)
  }

  lemma ClassEmpty<T>(less: (T, T) -> bool, g: T)
    ensures Class(less, g, []) == []
  {
  }

  lemma ClassCons<T>(less: (T, T) -> bool, g: T, x: T, s: seq<T>)
    ensures Class(less, g, [x] + s) == (if Equiv(less, g, x) then [x] else []) + Class(less, g, s)
  {
    assert ([x] + s)[1..] == s;
  }

  lemma {:induction false} ClassConcat<T>(less: (T, T) -> bool, g: T, s: seq<T>, t: seq<T>)
    ensures Class(less, g, s + t) == Class(less, g, s) + Class(less, g, t)
  {
    hide Class;
    if s == [] {
      ClassEmpty(less, g);
      assert s + t == t;
    } else {
      var x, r := s[0], s[1..];
      ClassConcat(less, g, r, t);
      assert s == [x] + r && s + t == [x] + (r + t);
      ClassCons(less, g, x, r);
      ClassCons(less, g, x, r + t);
      Assoc(if Equiv(less, g, x) then [x] else [], Class(less, g, r), Class(less, g, t));
    }
  }

  lemma {:induction false} ClassNone<T>(less: (T, T) -> bool, g: T, s: seq<T>)
    requires forall x :: x in s ==> !Equiv(less, g, x)
    ensures Class(less, g, s) == []
  {
    if s != [] {
      ClassNone(less, g, s[1..]);
    }
  }

  lemma {:induction false} ClassSome<T>(less: (T, T) -> bool, g: T, s: seq<T>)
    requires Class(less, g, s) != []
    ensures exists x :: x in s && Equiv(less, g, x)
  {
    if !exists x :: x in s && Equiv(less, g, x) {
      ClassNone(less, g, s);
    }
  }

  /** Rearranging one window of a sequence stably rearranges the whole sequence stably. */
  lemma StableWindow<T(!new)>(less: (T, T) -> bool, a: seq<T>, s: seq<T>, t: seq<T>, z: seq<T>)
    requires Stable(less, s, t)
    ensures Stable(less, a + s + z, a + t + z)
  {
    forall g
      ensures Class(less, g, a + s + z) == Class(less, g, a + t + z)
    {
      ClassConcat(less, g, a + s, z);
      ClassConcat(less, g, a, s);
      ClassConcat(less, g, a + t, z);
      ClassConcat(less, g, a, t);
      assert Class(less, g, s) == Class(less, g, t);
    }
  }

  lemma StableTransitive<T(!new)>(less: (T, T) -> bool, s: seq<T>, t: seq<T>, u: seq<T>)
    requires Stable(less, s, t) && Stable(less, t, u)
    ensures Stable(less, s, u)
  {
  }

  /** The first element of a sorted sequence is not above the first of a stable rearrangement. */
  lemma HeadNotAbove<T(!new)>(less: (T, T) -> bool, s: seq<T>, t: seq<T>)
    requires StrictWeakOrder(less) && Sorted(less, s) && Stable(less, s, t) && t != []
    ensures s != [] && !less(t[0], s[0])
  {
    assert Class(less, t[0], t)[0] == t[0];
    assert Class(less, t[0], s) == Class(less, t[0], t);
    ClassSome(less, t[0], s);
    var x :| x in s && Equiv(less, t[0], x);
    var i :| 0 <= i < |s| && s[i] == x;
    assert !less(s[i], s[0]);
  }

  /** Being sorted and stable determines the result, so the sort has one possible outcome. */
  lemma {:induction false} StableSortUnique<T(!new)>(less: (T, T) -> bool, s: seq<T>, t: seq<T>)
    requires StrictWeakOrder(less)
    requires Sorted(less, s) && Sorted(less, t) && Stable(less, s, t)
    ensures s == t
    decreases |s|
  {
    if s == [] {
      if t != [] { HeadNotAbove(less, s, t); }
    } else if t == [] {
      HeadNotAbove(less, t, s);
    } else {
      HeadNotAbove(less, s, t);
      HeadNotAbove(less, t, s);
      assert Class(less, s[0], s)[0] == s[0];
      assert Class(less, s[0], t)[0] == t[0];
      assert Class(less, s[0], s) == Class(less, s[0], t);
      forall g
        ensures Class(less, g, s[1..]) == Class(less, g, t[1..])
      {
        var h := if Equiv(less, g, s[0]) then [s[0]] else [];
        assert Class(less, g, s) == h + Class(less, g, s[1..]);
        assert Class(less, g, t) == h + Class(less, g, t[1..]);
        assert Class(less, g, s) == Class(less, g, t);
        assert Class(less, g, s[1..]) == (h + Class(less, g, s[1..]))[|h|..];
        assert Class(less, g, t[1..]) == (h + Class(less, g, t[1..]))[|h|..];
      }
      StableSortUnique(less, s[1..], t[1..]);
    }
  }
}
