/** `Vec::splice`: a range is drained, and the destructor puts the replacement in its place.  Both the
    destructors of the removed elements and the replacement iterator may panic. */
module VecSplice {
  import opened Slices
  import opened Wrappers
  import opened VecBuffer
  import opened VecDrain

  /** `Extend::extend`: pushes the remaining items, up to a panic of the iterator. */
  method Extend<T>(vec: Vec<T>, source: Source<T>, ghost contents: seq<T>) returns (panicked: bool)
    requires vec.Settled(contents) && source.Valid()
    modifies vec`slots, vec`len, source`pos
    ensures source.Valid() && old(source.pos) <= source.pos && source.Calm(old(source.pos), source.pos)
    ensures vec.Settled(contents + source.items[old(source.pos)..source.pos])
    ensures panicked == source.faulty(source.pos) && (!panicked ==> source.pos == |source.items|)
  {
    ghost var c := contents;
    while true
      invariant vec.Settled(c) && source.Valid() && old(source.pos) <= source.pos
      invariant c == contents + source.items[old(source.pos)..source.pos]
      invariant source.Calm(old(source.pos), source.pos)
      decreases |source.items| - source.pos
    {
      var item;
      item, panicked := source.Next();
      if item.None? {
        return;
      }
      PushOne(vec, item.value, c);
      c := c + [item.value];
    }
  }

  method PushOne<T>(vec: Vec<T>, x: T, ghost c: seq<T>)
    requires vec.Settled(c)
    modifies vec`slots, vec`len
    ensures vec.Settled(c + [x])
  {
    ghost var s := vec.slots;
    vec.Reserve(vec.len, 1);
    GrownLaid(s, vec.slots, c, vec.len, []);
    vec.Put(vec.len, x);
    vec.len := vec.len + 1;
  }

  /** The items that came before, and the next ones. */
  lemma FilledOn<T>(pre: seq<T>, items: seq<T>, a: nat, b: nat, c: nat)
    requires a <= b <= c <= |items|
    ensures (pre + items[a..b]) + items[b..c] == pre + items[a..c]
  {
    Cut(items, a, b, c);
    Assoc(pre, items[a..b], items[b..c]);
  }

  /** Collects what the replacement still has and makes exact room for it.  If it panics meanwhile,
      what was collected is `lost`. */
  method InsertRest<T>(d: Drain<T>, source: Source<T>) returns (lost: seq<T>, panicked: bool)
    requires d.Valid() && d.mid == [] && |d.pre| == d.tailStart && source.Valid()
    modifies d`pre, d`tailStart, d.vec`slots, d.vec`len, source`pos
    ensures d.Valid() && source.Valid() && old(source.pos) <= source.pos
    ensures source.Calm(old(source.pos), source.pos)
    ensures panicked == source.faulty(source.pos)
    ensures panicked ==> d.pre == old(d.pre) && lost == source.items[old(source.pos)..source.pos]
    ensures !panicked ==>
              && source.pos == |source.items| && lost == []
              && d.pre == old(d.pre) + source.items[old(source.pos)..source.pos]
  {
    hide Laid, Laid3;
    var taken;
    taken, panicked := source.Collect();
    if panicked {
      return taken, true;
    }
    lost := [];
    if |taken| > 0 {
      var collected := new Source(taken, k => if k <= |taken| then |taken| - k else 0, _ => false);
      d.MoveTail(|taken|);
      var filled, _ := d.Fill(collected);
      assert filled && collected.pos == |taken|;
      assert collected.items[0..collected.pos] == taken;
    }
  }

  lemma NothingAfter<T>(items: seq<T>, a: nat, b: nat, c: nat)
    requires a <= b <= c <= |items|
    ensures items[c..c] == [] && c - |items[b..c]| == b
  {
  }

  /** Fills the gap, and fills it again after making the room that the replacement claims to need. */
  method FillTwice<T>(d: Drain<T>, source: Source<T>) returns (full: bool, panicked: bool)
    requires d.Valid() && d.mid == [] && source.Valid()
    modifies d`pre, d`tailStart, d.vec`slots, d.vec`len, source`pos
    ensures d.Valid() && source.Valid() && old(source.pos) <= source.pos
    ensures d.pre == old(d.pre) + source.items[old(source.pos)..source.pos]
    ensures source.Calm(old(source.pos), source.pos)
    ensures full ==> !panicked && |d.pre| == d.tailStart
    ensures !full ==> panicked == source.faulty(source.pos)
    ensures !full && !panicked ==> source.pos == |source.items|
  {
    hide Laid, Laid3;
    full, panicked := d.Fill(source);
    if !full {
      return;
    }
    var lower := source.hint(source.pos);
    if lower > 0 {
      ghost var first := source.pos;
      d.MoveTail(lower);
      full, panicked := d.Fill(source);
      FilledOn(old(d.pre), source.items, old(source.pos), first, source.pos);
    }
  }

  /** Fills the gap, guesses how much more is to come, and finally makes exact room for the rest.  The
      items that the replacement gave are written to the gap, in order, except those that were being
      collected when it panicked. */
  method InsertReplacement<T>(d: Drain<T>, source: Source<T>) returns (lost: seq<T>, panicked: bool)
    requires d.Valid() && d.mid == [] && source.Valid()
    modifies d`pre, d`tailStart, d.vec`slots, d.vec`len, source`pos
    ensures d.Valid() && source.Valid() && old(source.pos) + |lost| <= source.pos
    ensures source.Calm(old(source.pos), source.pos)
    ensures panicked == source.faulty(source.pos)
    ensures var w := source.pos - |lost|;
            d.pre == old(d.pre) + source.items[old(source.pos)..w] && lost == source.items[w..source.pos]
    ensures !panicked ==> source.pos == |source.items| && lost == []
  {
    hide Laid, Laid3;
    var full;
    full, panicked := FillTwice(d, source);
    if !full {
      return [], panicked;
    }
    ghost var first := source.pos;
    lost, panicked := InsertRest(d, source);
    FilledOn(old(d.pre), source.items, old(source.pos), first, source.pos);
    NothingAfter(source.items, old(source.pos), first, source.pos);
  }

  /** Drops items that unwinding found; a panic now aborts. */
  method DropLost<T>(vec: Vec<T>, lost: seq<T>, panics: nat -> bool) returns (aborted: bool)
    modifies vec`dropped
    ensures aborted <==> PanicCount(panics, |old(vec.dropped)|, |lost|) > 0
    ensures !aborted ==> vec.dropped == old(vec.dropped) + lost
  {
    for i := 0 to |lost|
      invariant vec.dropped == old(vec.dropped) + lost[..i]
      invariant PanicCount(panics, |old(vec.dropped)|, |lost|) == PanicCount(panics, |vec.dropped|, |lost| - i)
    {
      if panics(|vec.dropped|) {
        return true;
      }
      vec.dropped := vec.dropped + [lost[i]];
    }
    aborted := false;
  }

  /** Puts the replacement into the gap of an exhausted range and closes what is left of it.  After a
      panic of the replacement the vector is prefix, the items written so far, and tail. */
  method Replace<T>(d: Drain<T>, source: Source<T>, panics: nat -> bool) returns (outcome: Outcome, ghost written: nat)
    requires d.Valid() && d.mid == [] && source.Valid() && source.pos == 0
    modifies d, d.vec, source`pos
    ensures written <= source.pos <= |source.items| && source.Calm(0, source.pos)
    ensures outcome == Done <==> !source.faulty(source.pos)
    ensures outcome == Done ==> written == source.pos == |source.items|
    ensures outcome == Aborted <==>
              source.faulty(source.pos) && PanicCount(panics, |old(d.vec.dropped)|, source.pos - written) > 0
    ensures outcome != Aborted ==>
              && d.vec.Settled(old(d.pre) + source.items[..written] + old(d.tail))
              && d.vec.dropped == old(d.vec.dropped) + source.items[written..source.pos]
  {
    hide Laid, Laid3, PanicCount;
    var lost, panicked;
    if d.tailLen == 0 {
      AllSettled(d);
      panicked := Extend(d.vec, source, d.pre);
      written := source.pos;
      NoneLost(panics, |d.vec.dropped|);
      assert old(d.pre) + source.items[..written] + old(d.tail) == old(d.pre) + source.items[0..source.pos];
      return if panicked then Panicked else Done, written;
    }
    lost, panicked := InsertReplacement(d, source);
    written := source.pos - |lost|;
    assert source.items[0..written] == source.items[..written];
    var aborted := DropLost(d.vec, lost, panics);
    if !panicked { NoneLost(panics, |old(d.vec.dropped)|); }
    if aborted {
      return Aborted, written;
    }
    d.CloseUp();
    outcome := if panicked then Panicked else Done;
  }

  /** Without a tail an exhausted range leaves the vector in order. */
  lemma AllSettled<T>(d: Drain<T>)
    requires d.Valid() && d.mid == [] && d.tailLen == 0
    ensures d.vec.Settled(d.pre)
  {
  }

  /** How the destructor of a `Splice` ends, given what it had to drop, how far it asked the
      replacement, and how much of that it wrote. */
  ghost predicate Ends<T>(outcome: Outcome, panics: nat -> bool, k: nat, rest: nat, source: Source<T>, written: nat)
    reads source
  {
    && written <= source.pos <= |source.items| && source.Calm(0, source.pos)
    && var n := PanicCount(panics, k, rest);
       if n > 0 then outcome == Ending(n) && written == source.pos == 0
       else if !source.faulty(source.pos) then outcome == Done && written == source.pos == |source.items|
       else outcome == if PanicCount(panics, k + rest, source.pos - written) > 0 then Aborted else Panicked
  }

  /** `Splice::drop`, including the destructor of the `Drain` inside it: for any part of the range
      already taken and any lower bounds the replacement claims, the vector becomes prefix, the
      replacement as far as it was written, and tail.  The rest of the range is dropped once, in order,
      and so are items that were taken from the replacement but not written. */
  method DropSplice<T>(d: Drain<T>, source: Source<T>, panics: nat -> bool)
    returns (outcome: Outcome, ghost written: nat)
    requires d.Valid() && source.Valid() && source.pos == 0
    modifies d, d.vec, source`pos
    ensures Ends(outcome, panics, |old(d.vec.dropped)|, |old(d.mid)|, source, written)
    ensures outcome != Aborted ==>
              && d.vec.Settled(old(d.pre) + source.items[..written] + old(d.tail))
              && d.vec.dropped == old(d.vec.dropped) + old(d.mid) + source.items[written..source.pos]
  {
    hide Laid, Laid3, PanicCount;
    written := 0;
    var panicked := d.DropRest(panics);
    if panicked {
      var unwound := d.Drop(panics);
      assert old(d.pre) + source.items[..0] + old(d.tail) == old(d.pre) + old(d.tail);
      assert old(d.vec.dropped) + old(d.mid) + source.items[0..0] == old(d.vec.dropped) + old(d.mid);
      return if unwound == Done then Panicked else Aborted, 0;
    }
    NoneLost(panics, |d.vec.dropped|);
    assert |d.vec.dropped| == |old(d.vec.dropped)| + |old(d.mid)|;
    outcome, written := Replace(d, source, panics);
  }

  lemma AskFront<T>(fronts: seq<T>, mid: seq<T>, z: seq<T>)
    requires mid != []
    ensures (fronts + [mid[0]]) + mid[1..] + z == fronts + mid + z
  {
  }

  lemma AskBack<T>(fronts: seq<T>, mid: seq<T>, backs: seq<T>)
    requires mid != []
    ensures var j := |mid| - 1;
            fronts + mid[..j] + Reversed(backs + [mid[j]]) == fronts + mid + Reversed(backs)
  {
    var j := |mid| - 1;
    ReversedSnoc(backs, mid[j]);
    assert mid == mid[..j] + [mid[j]];
  }

  /** A whole life of `splice`: a range is opened, elements are asked for from either end, and the
      splice is dropped.  What came out at the front, what the destructor dropped, and what came out
      at the back are the removed range, each element once.  `None` is the panic on a bad range. */
  method SpliceSession<T>(vec: Vec<T>, start: nat, end: nat, asks: seq<bool>, source: Source<T>,
                          panics: nat -> bool, ghost contents: seq<T>)
    returns (fronts: seq<T>, backs: seq<T>, ghost lost: seq<T>, outcome: Option<Outcome>, ghost written: nat)
    requires vec.Settled(contents) && source.Valid() && source.pos == 0
    modifies vec, source`pos
    ensures outcome.None? <==> !(start <= end <= |contents|)
    ensures outcome.None? ==> vec.Settled(contents) && vec.dropped == old(vec.dropped) && source.pos == 0
    ensures outcome.Some? ==>
              && fronts + lost + Reversed(backs) == contents[start..end]
              && Ends(outcome.value, panics, |old(vec.dropped)|, |lost|, source, written)
              && (outcome.value != Aborted ==>
                    && vec.Settled(contents[..start] + source.items[..written] + contents[end..])
                    && vec.dropped == old(vec.dropped) + lost + source.items[written..source.pos])
  {
    hide Laid, Laid3, Reversed, PanicCount, Ends;
    assert Reversed<T>([]) == [];
    fronts, backs, lost, outcome, written := [], [], [], None, 0;
    var r := Drain.Open(vec, start, end, contents);
    if r.None? {
      return;
    }
    var d := r.value;
    for n := 0 to |asks|
      invariant d.Valid() && d.vec == vec && fresh(d) && vec.dropped == old(vec.dropped) && source.pos == 0
      invariant d.pre == contents[..start] && d.tail == contents[end..]
      invariant fronts + d.mid + Reversed(backs) == contents[start..end]
    {
      ghost var mid := d.mid;
      if asks[n] {
        var x := d.Next();
        if x.Some? {
          AskFront(fronts, mid, Reversed(backs));
          fronts := fronts + [x.value];
        }
      } else {
        var x := d.NextBack();
        if x.Some? {
          AskBack(fronts, mid, backs);
          backs := backs + [x.value];
        }
      }
    }
    lost := d.mid;
    var end';
    end', written := DropSplice(d, source, panics);
    outcome := Some(end');
  }
}
