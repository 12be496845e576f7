/** The buffer of a `Vec`, slot by slot.  A slot that has been moved out of is empty, so reading an
    element twice, or overwriting one that nobody took, has no meaning here and must be excluded. */
module VecBuffer {
  datatype Slot<+T> = Empty | Full(value: T)

  /** What `ptr::copy` of `n` slots from `src` to `dst` leaves behind. */
  ghost function Moved<T>(s: seq<Slot<T>>, src: nat, dst: nat, n: nat): (r: seq<Slot<T>>)
    requires src + n <= |s| && dst + n <= |s|
    ensures |r| == |s|
  {
    seq(|s|, i requires 0 <= i < |s| =>
      if dst <= i < dst + n then s[src + (i - dst)]
      else if src <= i < src + n then Empty
      else s[i])
  }

  /** `pre` at the start, `tail` from `at` on, and nothing else. */
  ghost predicate Laid<T>(s: seq<Slot<T>>, pre: seq<T>, at: nat, tail: seq<T>) {
    && |pre| <= at && at + |tail| <= |s|
    && forall i :: 0 <= i < |s| ==>
         s[i] == if i < |pre| then Full(pre[i])
                 else if at <= i < at + |tail| then Full(tail[i - at])
                 else Empty
  }

  /** As `Laid`, with `mid` still in place from `lo` on, between the two. */
  ghost predicate Laid3<T>(s: seq<Slot<T>>, pre: seq<T>, lo: nat, mid: seq<T>, at: nat, tail: seq<T>) {
    && |pre| <= lo && lo + |mid| <= at && at + |tail| <= |s|
    && forall i :: 0 <= i < |s| ==>
         s[i] == if i < |pre| then Full(pre[i])
                 else if lo <= i < lo + |mid| then Full(mid[i - lo])
                 else if at <= i < at + |tail| then Full(tail[i - at])
                 else Empty
  }

  /** How a destructor that runs other destructors ends: normally, unwinding, or with the process
      gone because a second panic met the first. */
  datatype Outcome = Done | Panicked | Aborted

  /** How many of the `n` destructors from number `k` on panic. */
  ghost function PanicCount(panics: nat -> bool, k: nat, n: nat): nat
    decreases n
  {
    if n == 0 then 0 else (if panics(k) then 1 else 0) + PanicCount(panics, k + 1, n - 1)
  }

  lemma NoneLost(panics: nat -> bool, k: nat)
    ensures PanicCount(panics, k, 0) == 0
  {
  }

  /** One panic unwinds; a second one while unwinding aborts the process. */
  ghost function Ending(panics: nat): Outcome {
    if panics == 0 then Done else if panics == 1 then Panicked else Aborted
  }

  ghost predicate Twice(panics: nat -> bool, k: nat, n: nat) {
    exists i, j :: k <= i < j < k + n && panics(i) && panics(j)
  }

  lemma {:induction false} CountsPanics(panics: nat -> bool, k: nat, n: nat)
    ensures PanicCount(panics, k, n) == 0 <==> forall i :: k <= i < k + n ==> !panics(i)
    ensures PanicCount(panics, k, n) >= 2 <==> Twice(panics, k, n)
    decreases n
  {
    if n > 0 {
      CountsPanics(panics, k + 1, n - 1);
      if Twice(panics, k, n) {
        var i, j :| k <= i < j < k + n && panics(i) && panics(j);
        assert i > k ==> Twice(panics, k + 1, n - 1);
      }
      if panics(k) && PanicCount(panics, k + 1, n - 1) > 0 {
        var j :| k + 1 <= j < k + n && panics(j);
        assert Twice(panics, k, n);
      }
    }
  }

  /** Running `n` destructors ends normally if and only if none of them panics, and in an abort if and
      only if two of them do. */
  lemma EndingIff(panics: nat -> bool, k: nat, n: nat)
    ensures Ending(PanicCount(panics, k, n)) == Done <==> forall i :: k <= i < k + n ==> !panics(i)
    ensures Ending(PanicCount(panics, k, n)) == Aborted <==>
            exists i, j :: k <= i < j < k + n && panics(i) && panics(j)
  {
    hide PanicCount;
    CountsPanics(panics, k, n);
  }

  class Vec<T> {
    var slots: seq<Slot<T>>   // as long as the capacity
    var len: nat
    var dropped: seq<T>       // the elements whose destructor has run, in order

    /** No editor is at work: the buffer holds the contents and nothing else. */
    ghost predicate Settled(contents: seq<T>)
      reads this
    {
      len == |contents| && Laid(slots, contents, len, [])
    }

    /** `ptr::read`: the element leaves its slot. */
    method Take(i: nat) returns (x: T)
      requires i < |slots| && slots[i].Full?
      modifies this`slots
      ensures x == old(slots)[i].value && slots == old(slots)[i := Empty]
    {
      x := slots[i].value;
      slots := slots[i := Empty];
    }

    /** `ptr::write`: into a slot that holds nothing. */
    method Put(i: nat, x: T)
      requires i < |slots| && slots[i] == Empty
      modifies this`slots
      ensures slots == old(slots)[i := Full(x)]
    {
      slots := slots[i := Full(x)];
    }

    /** `ptr::copy`: the ranges may overlap, but no element outside the source is overwritten. */
    method Move(src: nat, dst: nat, n: nat)
      requires src + n <= |slots| && dst + n <= |slots|
      requires forall i :: dst <= i < dst + n ==> src <= i < src + n || slots[i] == Empty
      modifies this`slots
      ensures slots == Moved(old(slots), src, dst, n)
    {
      slots := seq(|slots|, i requires 0 <= i < |slots| && src + n <= |slots| reads this =>
        if dst <= i < dst + n then slots[src + (i - dst)]
        else if src <= i < src + n then Empty
        else slots[i]);
    }

    /** `RawVec::reserve`: room for `additional` slots after the first `used`. */
    method Reserve(used: nat, additional: nat)
      requires used <= |slots|
      modifies this`slots
      ensures |slots| >= used + additional && |slots| >= |old(slots)|
      ensures slots[..|old(slots)|] == old(slots)
      ensures forall i :: |old(slots)| <= i < |slots| ==> slots[i] == Empty
    {
      if |slots| - used < additional {
        var cap := if 2 * |slots| > used + additional then 2 * |slots| else used + additional;
        slots := slots + seq(cap - |slots|, _ => Empty);
      }
    }
  }
}
