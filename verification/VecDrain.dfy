/** `Vec::drain`: the vector is cut at the start of the range, elements are moved out of the gap, and
    the destructor closes the gap.  `fill` and `move_tail` are the parts of `Drain` that a `Splice`
    uses to put something else there. */
module VecDrain {
  import opened Wrappers
  import opened VecBuffer

  /** Moving the tail onto the end of the prefix closes the gap. */
  lemma CloseGap<T>(s: seq<Slot<T>>, pre: seq<T>, at: nat, tail: seq<T>)
    requires Laid(s, pre, at, tail)
    ensures Laid(Moved(s, at, |pre|, |tail|), pre + tail, |pre| + |tail|, [])
  {
  }

  /** Moving the tail up widens the gap. */
  lemma WidenGap<T>(s: seq<Slot<T>>, pre: seq<T>, at: nat, tail: seq<T>, more: nat)
    requires Laid(s, pre, at, tail) && at + more + |tail| <= |s|
    ensures Laid(Moved(s, at, at + more, |tail|), pre, at + more, tail)
  {
  }

  lemma FillOne<T>(s: seq<Slot<T>>, pre: seq<T>, at: nat, tail: seq<T>, x: T)
    requires Laid(s, pre, at, tail) && |pre| < at
    ensures s[|pre|] == Empty && Laid(s[|pre| := Full(x)], pre + [x], at, tail)
  {
  }

  lemma TakeFront<T>(s: seq<Slot<T>>, pre: seq<T>, lo: nat, mid: seq<T>, at: nat, tail: seq<T>)
    requires Laid3(s, pre, lo, mid, at, tail) && mid != []
    ensures s[lo] == Full(mid[0]) && Laid3(s[lo := Empty], pre, lo + 1, mid[1..], at, tail)
  {
  }

  lemma TakeBack<T>(s: seq<Slot<T>>, pre: seq<T>, lo: nat, mid: seq<T>, at: nat, tail: seq<T>)
    requires Laid3(s, pre, lo, mid, at, tail) && mid != []
    ensures var j := lo + |mid| - 1;
            s[j] == Full(mid[|mid| - 1]) && Laid3(s[j := Empty], pre, lo, mid[..|mid| - 1], at, tail)
  {
  }

  /** Spare capacity holds nothing. */
  lemma GrownLaid<T>(s: seq<Slot<T>>, t: seq<Slot<T>>, pre: seq<T>, at: nat, tail: seq<T>)
    requires Laid(s, pre, at, tail) && |s| <= |t| && t[..|s|] == s
    requires forall i :: |s| <= i < |t| ==> t[i] == Empty
    ensures Laid(t, pre, at, tail)
  {
  }

  /** The replacement iterator.  `hint(k)` is the lower bound it claims after `k` items; it may be
      wrong in either direction.  `faulty(k)` says whether asking for item `k` panics. */
  class Source<T> {
    const items: seq<T>
    const hint: nat -> nat
    const faulty: nat -> bool
    var pos: nat

    ghost predicate Valid()
      reads this
    {
      pos <= |items|
    }

    /** Nothing panics between the two positions. */
    ghost predicate Calm(from: nat, to: nat) {
      forall k :: from <= k < to ==> !faulty(k)
    }

    method Next() returns (r: Option<T>, panicked: bool)
      requires Valid()
      modifies this`pos
      ensures Valid() && panicked == faulty(old(pos))
      ensures panicked || old(pos) == |items| ==> r == None && pos == old(pos)
      ensures !panicked && old(pos) < |items| ==> r == Some(items[old(pos)]) && pos == old(pos) + 1
    {
      panicked := faulty(pos);
      if panicked || pos == |items| {
        return None, panicked;
      }
      r := Some(items[pos]);
      pos := pos + 1;
    }

    /** `collect`: the remaining items, or those that came before a panic. */
    method Collect() returns (taken: seq<T>, panicked: bool)
      requires Valid()
      modifies this`pos
      ensures Valid() && old(pos) <= pos && taken == items[old(pos)..pos] && Calm(old(pos), pos)
      ensures panicked == faulty(pos) && (!panicked ==> pos == |items|)
    {
      taken := [];
      while true
        invariant Valid() && old(pos) <= pos && taken == items[old(pos)..pos] && Calm(old(pos), pos)
        decreases |items| - pos
      {
        var item;
        item, panicked := Next();
        if item.None? {
          return;
        }
        taken := taken + [item.value];
      }
    }

    constructor (items: seq<T>, hint: nat -> nat, faulty: nat -> bool)
      ensures this.items == items && this.hint == hint && this.faulty == faulty && pos == 0
    {
      this.items, this.hint, this.faulty, pos := items, hint, faulty, 0;
    }
  }

  class Drain<T> {
    const vec: Vec<T>
    var tailStart: nat
    var tailLen: nat
    var lo: nat               // the unread part of the range
    var hi: nat
    ghost var pre: seq<T>     // what the vector holds before the gap
    ghost var mid: seq<T>     // the removed elements nobody has taken yet
    ghost var tail: seq<T>    // what follows the range

    ghost predicate Valid()
      reads this, vec
    {
      && vec.len == |pre| && tailLen == |tail|
      && lo + |mid| == hi
      && (mid != [] ==> Laid3(vec.slots, pre, lo, mid, tailStart, tail))
      && (mid == [] ==> Laid(vec.slots, pre, tailStart, tail))
    }

    /** `Vec::drain` on a range that lies in the vector. */
    constructor (vec: Vec<T>, start: nat, end: nat, ghost contents: seq<T>)
      requires vec.Settled(contents) && start <= end <= vec.len
      modifies vec`len
      ensures this.vec == vec && Valid()
      ensures pre == contents[..start] && mid == contents[start..end] && tail == contents[end..]
    {
      var len := vec.len;
      vec.len := start;
      this.vec := vec;
      tailStart, tailLen, lo, hi := end, len - end, start, end;
      pre, mid, tail := contents[..start], contents[start..end], contents[end..];
    }

    /** `drain(range)`; `None` is the panic of the range check. */
    static method Open(vec: Vec<T>, start: nat, end: nat, ghost contents: seq<T>) returns (r: Option<Drain<T>>)
      requires vec.Settled(contents)
      modifies vec`len
      ensures r.None? <==> !(start <= end <= old(vec.len))
      ensures r.None? ==> vec.Settled(contents)
      ensures r.Some? ==>
                && fresh(r.value) && r.value.vec == vec && r.value.Valid() && r.value.pre == contents[..start]
                && r.value.mid == contents[start..end] && r.value.tail == contents[end..]
    {
      if start <= end && end <= vec.len {
        var d := new Drain(vec, start, end, contents);
        r := Some(d);
      } else {
        r := None;
      }
    }

    /** The next element from the front, moved out of its slot. */
    method Next() returns (r: Option<T>)
      requires Valid()
      modifies this`lo, this`mid, vec`slots
      ensures Valid()
      ensures old(mid) == [] ==> r == None && mid == []
      ensures old(mid) != [] ==> r == Some(old(mid)[0]) && mid == old(mid)[1..]
    {
      if lo == hi {
        return None;
      }
      TakeFront(vec.slots, pre, lo, mid, tailStart, tail);
      var x := vec.Take(lo);
      lo, mid := lo + 1, mid[1..];
      r := Some(x);
    }

    /** The next element from the back, moved out of its slot. */
    method NextBack() returns (r: Option<T>)
      requires Valid()
      modifies this`hi, this`mid, vec`slots
      ensures Valid()
      ensures old(mid) == [] ==> r == None && mid == []
      ensures old(mid) != [] ==> r == Some(old(mid)[|old(mid)| - 1]) && mid == old(mid)[..|old(mid)| - 1]
    {
      if lo == hi {
        return None;
      }
      TakeBack(vec.slots, pre, lo, mid, tailStart, tail);
      var x := vec.Take(hi - 1);
      hi, mid := hi - 1, mid[..|mid| - 1];
      r := Some(x);
    }

    /** Drops the remaining elements one by one until none is left or a destructor panics.
        `panics(k)` says whether the destructor that makes `dropped` of length `k + 1` does. */
    method DropRest(panics: nat -> bool) returns (panicked: bool)
      requires Valid()
      modifies this`lo, this`mid, vec`slots, vec`dropped
      ensures Valid()
      ensures vec.dropped + mid == old(vec.dropped) + old(mid)
      ensures !panicked ==> mid == []
      ensures PanicCount(panics, |old(vec.dropped)|, |old(mid)|) ==
              (if panicked then 1 else 0) + PanicCount(panics, |vec.dropped|, |mid|)
    {
      hide Laid, Laid3;
      panicked := false;
      while lo < hi && !panicked
        invariant Valid()
        invariant vec.dropped + mid == old(vec.dropped) + old(mid)
        invariant PanicCount(panics, |old(vec.dropped)|, |old(mid)|) ==
                  (if panicked then 1 else 0) + PanicCount(panics, |vec.dropped|, |mid|)
        decreases hi - lo
      {
        var x := Next();
        panicked := panics(|vec.dropped|);
        vec.dropped := vec.dropped + [x.value];
      }
    }

    /** The end of the destructor: the tail is moved back and the length restored. */
    method CloseUp()
      requires Valid() && mid == []
      modifies vec`slots, vec`len
      ensures vec.Settled(pre + tail)
    {
      CloseGap(vec.slots, pre, tailStart, tail);
      if tailLen > 0 {
        var start := vec.len;
        if tailStart != start {
          vec.Move(tailStart, start, tailLen);
        }
        vec.len := start + tailLen;
      }
    }

    /** `Drain::drop`: whatever was taken before, and even if a destructor panics, every remaining
        element is dropped once, in order, and the vector is prefix and tail.  A second panic during
        the unwinding aborts. */
    method Drop(panics: nat -> bool) returns (outcome: Outcome)
      requires Valid()
      modifies this`lo, this`mid, vec
      ensures outcome != Aborted ==> vec.Settled(old(pre) + old(tail)) && vec.dropped == old(vec.dropped) + old(mid)
      ensures outcome == Ending(PanicCount(panics, |old(vec.dropped)|, |old(mid)|))
    {
      var panicked := DropRest(panics);
      outcome := Done;
      if panicked {
        outcome := Panicked;
        panicked := DropRest(panics);
        if panicked {
          return Aborted;
        }
      }
      CloseUp();
    }

    /** `fill`: writes replacement items into the gap until it is full (`true`), the items run out
        (`false`), or the replacement panics. */
    method Fill(source: Source<T>) returns (full: bool, panicked: bool)
      requires Valid() && mid == [] && source.Valid()
      modifies this`pre, vec`slots, vec`len, source`pos
      ensures Valid() && source.Valid() && old(source.pos) <= source.pos
      ensures pre == old(pre) + source.items[old(source.pos)..source.pos]
      ensures source.Calm(old(source.pos), source.pos)
      ensures full ==> !panicked && |pre| == tailStart
      ensures !full ==> |pre| < tailStart && panicked == source.faulty(source.pos)
      ensures !full && !panicked ==> source.pos == |source.items|
    {
      while vec.len < tailStart
        invariant Valid() && source.Valid() && old(source.pos) <= source.pos
        invariant pre == old(pre) + source.items[old(source.pos)..source.pos]
        invariant source.Calm(old(source.pos), source.pos)
        decreases |source.items| - source.pos
      {
        var item;
        item, panicked := source.Next();
        if item.None? {
          return false, panicked;
        }
        FillOne(vec.slots, pre, tailStart, tail, item.value);
        vec.Put(vec.len, item.value);
        vec.len := vec.len + 1;
        pre := pre + [item.value];
      }
      full, panicked := true, false;
    }

    /** `move_tail`: makes the gap `additional` slots wider. */
    method MoveTail(additional: nat)
      requires Valid() && mid == []
      modifies this`tailStart, vec`slots
      ensures Valid() && tailStart == old(tailStart) + additional
    {
      hide Moved;
      vec.Reserve(tailStart + tailLen, additional);
      GrownLaid(old(vec.slots), vec.slots, pre, tailStart, tail);
      WidenGap(vec.slots, pre, tailStart, tail, additional);
      vec.Move(tailStart, tailStart + additional, tailLen);
      tailStart := tailStart + additional;
    }
  }
}
