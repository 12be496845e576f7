/** `Vec::retain`: the same result as draining with the opposite predicate, by swaps. */
module VecRetain {
  import opened Slices
  import opened VecBuffer
  import opened VecFilter

  /** `retain` gives its closure a shared reference, so the element cannot change. */
  ghost predicate LooksOnly<T(!new)>(pred: Predicate<T>) {
    forall k: nat, x :: pred(k, x).value == x
  }

  /** No destructor runs while elements are judged. */
  predicate Never(k: nat) { false }

  /** What remains of a sweep after `i` calls that selected `del` elements. */
  ghost function Ahead<T>(pred: Predicate<T>, i: nat, del: nat, s: seq<T>): Swept<T>
    requires i <= |s|
  {
    Sweep(pred, Never, i, del, s[i..])
  }

  ghost function Swap<T>(c: seq<T>, a: nat, i: nat): (d: seq<T>)
    requires a < |c| && i < |c|
    ensures |d| == |c|
  {
    c[a := c[i]][i := c[a]]
  }

  /** `g` has the elements of the two parts. */
  ghost predicate Together<T>(g: seq<T>, a: seq<T>, b: seq<T>) {
    multiset(g) == multiset(a) + multiset(b)
  }

  /** Where `retain` stands after `i` elements: those kept, those to go in some order, the rest. */
  ghost predicate Swapped<T>(pred: Predicate<T>, s: seq<T>, c: seq<T>, i: nat, del: nat) {
    && |c| == |s| && del <= i <= |s|
    && c[i..] == s[i..]
    && var w, r := Ahead(pred, 0, 0, s), Ahead(pred, i, del, s);
       && w.kept == c[..i - del] + r.kept
       && Together(w.gone, c[i - del..i], r.gone)
       && w.panicked == r.panicked
  }

  lemma AheadStep<T(!new)>(pred: Predicate<T>, s: seq<T>, i: nat, del: nat)
    requires LooksOnly(pred) && i < |s|
    ensures var w, v := Ahead(pred, i, del, s), pred(i, s[i]).verdict;
            && (v == Panic ==> w.panicked)
            && (v == Keep ==>
                  var r := Ahead(pred, i + 1, del, s); w == r.(kept := [s[i]] + r.kept))
            && (v == Remove ==>
                  var r := Ahead(pred, i + 1, del + 1, s); w == r.(gone := [s[i]] + r.gone))
  {
    assert s[i..][1..] == s[i + 1..];
  }

  lemma SwappedStart<T>(pred: Predicate<T>, s: seq<T>)
    ensures Swapped(pred, s, s, 0, 0)
  {
    hide Sweep;
    assert s[0..0] == [];
  }

  lemma NextUnjudged<T>(s: seq<T>, c: seq<T>, i: nat)
    requires |c| == |s| && i < |s| && c[i..] == s[i..]
    ensures c[i] == s[i] && c[i + 1..] == s[i + 1..]
  {
    assert c[i] == c[i..][0] && s[i] == s[i..][0];
    SameFrom(s, c, i, i + 1);
  }

  lemma Unswapped<T>(pred: Predicate<T>, s: seq<T>, c: seq<T>, i: nat, del: nat)
    requires Swapped(pred, s, c, i, del) && i < |s|
    ensures |c| == |s| && del <= i && c[i] == s[i]
  {
    hide Sweep, Together;
    NextUnjudged(s, c, i);
  }

  /** Swapping the kept element down leaves what is before and behind alone. */
  lemma SwapSlices<T>(c: seq<T>, a: nat, i: nat)
    requires a <= i < |c|
    ensures Swap(c, a, i)[..a + 1] == c[..a] + [c[i]] && Swap(c, a, i)[i + 1..] == c[i + 1..]
  {
  }

  /** It rotates the elements to go. */
  lemma SwapRotates<T>(c: seq<T>, a: nat, i: nat)
    requires a <= i < |c|
    ensures multiset(Swap(c, a, i)[a + 1..i + 1]) == multiset(c[a..i])
  {
    var d := Swap(c, a, i);
    if a < i {
      assert c[a..i] == [c[a]] + c[a + 1..i];
      assert d[a + 1..i + 1] == c[a + 1..i] + [c[a]];
    } else {
      assert c[a..i] == [] && d[a + 1..i + 1] == [];
    }
  }

  lemma SwapKeepsElements<T>(c: seq<T>, a: nat, i: nat)
    requires a < |c| && i < |c|
    ensures multiset(Swap(c, a, i)) == multiset(c)
  {
  }

  lemma SwapSame<T>(c: seq<T>, i: nat)
    requires i < |c|
    ensures Swap(c, i, i) == c
  {
  }

  lemma TogetherSame<T>(g: seq<T>, a: seq<T>, a': seq<T>, b: seq<T>)
    requires Together(g, a, b) && multiset(a') == multiset(a)
    ensures Together(g, a', b)
  {
  }

  lemma TogetherMove<T>(g: seq<T>, a: seq<T>, x: T, b: seq<T>)
    requires Together(g, a, [x] + b)
    ensures Together(g, a + [x], b)
  {
    assert multiset([x] + b) == multiset{x} + multiset(b);
    assert multiset(a + [x]) == multiset(a) + multiset{x};
  }

  lemma SwapKeep<T(!new)>(pred: Predicate<T>, s: seq<T>, c: seq<T>, i: nat, del: nat)
    requires LooksOnly(pred) && Swapped(pred, s, c, i, del) && i < |s| && pred(i, s[i]).verdict == Keep
    ensures Swapped(pred, s, Swap(c, i - del, i), i + 1, del)
  {
    hide Ahead, Swap, Together, LooksOnly;
    var a, r := i - del, Ahead(pred, i + 1, del, s);
    AheadStep(pred, s, i, del);
    NextUnjudged(s, c, i);
    SwapSlices(c, a, i);
    SwapRotates(c, a, i);
    Assoc(c[..a], [s[i]], r.kept);
    TogetherSame(Ahead(pred, 0, 0, s).gone, c[a..i], Swap(c, a, i)[a + 1..i + 1], r.gone);
  }

  lemma SwapRemove<T(!new)>(pred: Predicate<T>, s: seq<T>, c: seq<T>, i: nat, del: nat)
    requires LooksOnly(pred) && Swapped(pred, s, c, i, del) && i < |s| && pred(i, s[i]).verdict == Remove
    ensures Swapped(pred, s, c, i + 1, del + 1)
  {
    hide Ahead, Together, LooksOnly;
    var a, r := i - del, Ahead(pred, i + 1, del + 1, s);
    AheadStep(pred, s, i, del);
    NextUnjudged(s, c, i);
    Snoc(c, a, i);
    TogetherMove(Ahead(pred, 0, 0, s).gone, c[a..i], s[i], r.gone);
  }

  lemma SwapPanics<T(!new)>(pred: Predicate<T>, s: seq<T>, c: seq<T>, i: nat, del: nat)
    requires LooksOnly(pred) && Swapped(pred, s, c, i, del) && i < |s| && pred(i, s[i]).verdict == Panic
    ensures Ahead(pred, 0, 0, s).panicked
  {
    hide Ahead, Together, LooksOnly;
    AheadStep(pred, s, i, del);
  }

  lemma SweptAll<T>(pred: Predicate<T>, s: seq<T>, c: seq<T>, del: nat)
    requires Swapped(pred, s, c, |s|, del)
    ensures |c| == |s| && del <= |s|
    ensures !Ahead(pred, 0, 0, s).panicked && Ahead(pred, 0, 0, s).kept == c[..|s| - del]
    ensures multiset(Ahead(pred, 0, 0, s).gone) == multiset(c[|s| - del..])
  {
    NothingAhead(pred, s, del);
    hide Ahead;
    assert c[|s| - del..|s|] == c[|s| - del..];
  }

  lemma NothingAhead<T>(pred: Predicate<T>, s: seq<T>, del: nat)
    ensures Ahead(pred, |s|, del, s) == Swept([], [], [], false)
  {
  }

  // -----------------------------------------------------------------------------------------
  // The loop

  lemma SettledAt<T>(vec: Vec<T>, c: seq<T>, i: nat)
    requires vec.Settled(c) && i < |c|
    ensures |vec.slots| >= |c| && vec.slots[i] == Full(c[i])
  {
  }

  lemma SwappedSlots<T>(slots: seq<Slot<T>>, c: seq<T>, a: nat, i: nat)
    requires Laid(slots, c, |c|, []) && a < |c| && i < |c|
    ensures |slots| >= |c| && Laid(slots[a := slots[i]][i := slots[a]], Swap(c, a, i), |c|, [])
  {
  }

  /** One turn of the loop: the element is asked about and swapped down if it stays. */
  method RetainStep<T(!new)>(vec: Vec<T>, pred: Predicate<T>, i: nat, del: nat, ghost s: seq<T>, ghost c: seq<T>)
    returns (v: Verdict)
    requires vec.Settled(c) && Swapped(pred, s, c, i, del) && i < |s| == |c| && del <= i && LooksOnly(pred)
    modifies vec`slots
    ensures v == Panic ==> vec.Settled(c) && Ahead(pred, 0, 0, s).panicked
    ensures v == Remove ==> vec.Settled(c) && Swapped(pred, s, c, i + 1, del + 1)
    ensures v == Keep ==> vec.Settled(Swap(c, i - del, i)) && Swapped(pred, s, Swap(c, i - del, i), i + 1, del)
  {
    hide Laid, Swapped, LooksOnly, Ahead, Swap;
    Unswapped(pred, s, c, i, del);
    SettledAt(vec, c, i);
    v := pred(i, vec.slots[i].value).verdict;
    assert v == pred(i, s[i]).verdict;
    match v
    case Panic => SwapPanics(pred, s, c, i, del);
    case Remove => SwapRemove(pred, s, c, i, del);
    case Keep =>
      SwapKeep(pred, s, c, i, del);
      SwappedSlots(vec.slots, c, i - del, i);
      if del > 0 {
        vec.slots := vec.slots[i - del := vec.slots[i]][i := vec.slots[i - del]];
      } else {
        SwapSame(c, i);
      }
  }

  lemma DropSlot<T>(s: seq<Slot<T>>, c: seq<T>, n: nat, i: nat)
    requires n <= i < |c| && Laid(s, c[..n], i, c[i..])
    ensures i < |s| && s[i] == Full(c[i]) && Laid(s[i := Empty], c[..n], i + 1, c[i + 1..])
  {
  }

  /** Drops the slots from `start` on, up to the end or to a destructor that panics. */
  method DropSlots<T>(vec: Vec<T>, n: nat, start: nat, end: nat, panics: nat -> bool, ghost c: seq<T>)
    returns (i: nat, panicked: bool)
    requires n <= start <= end == |c| && Laid(vec.slots, c[..n], start, c[start..])
    modifies vec`slots, vec`dropped
    ensures start <= i <= end && Laid(vec.slots, c[..n], i, c[i..])
    ensures vec.dropped == old(vec.dropped) + c[start..i] && (!panicked ==> i == end)
    ensures PanicCount(panics, |old(vec.dropped)|, end - start) ==
            (if panicked then 1 else 0) + PanicCount(panics, |vec.dropped|, end - i)
  {
    hide Laid;
    i, panicked := start, false;
    while i < end && !panicked
      invariant start <= i <= end && Laid(vec.slots, c[..n], i, c[i..])
      invariant vec.dropped == old(vec.dropped) + c[start..i]
      invariant PanicCount(panics, |old(vec.dropped)|, end - start) ==
                (if panicked then 1 else 0) + PanicCount(panics, |vec.dropped|, end - i)
      decreases end - i
    {
      DropSlot(vec.slots, c, n, i);
      var x := vec.Take(i);
      panicked := panics(|vec.dropped|);
      vec.dropped := vec.dropped + [x];
      i := i + 1;
    }
  }

  lemma SlotsDropped<T>(s: seq<Slot<T>>, c: seq<T>, n: nat)
    requires n <= |c| && Laid(s, c[..n], |c|, c[|c|..])
    ensures Laid(s, c[..n], n, [])
  {
  }

  lemma SlotsKept<T>(s: seq<Slot<T>>, c: seq<T>, n: nat)
    requires n <= |c| && Laid(s, c, |c|, [])
    ensures Laid(s, c[..n], n, c[n..])
  {
  }

  /** `truncate`: the length is cut before any destructor runs, so none can run twice.  The elements
      from `n` on are dropped in order, also after one panic; a second one aborts. */
  method Truncate<T>(vec: Vec<T>, n: nat, panics: nat -> bool, ghost c: seq<T>) returns (outcome: Outcome)
    requires vec.Settled(c)
    modifies vec
    ensures n > |c| ==> outcome == Done && vec.Settled(c) && vec.dropped == old(vec.dropped)
    ensures n <= |c| ==> vec.len == n && outcome == Ending(PanicCount(panics, |old(vec.dropped)|, |c| - n))
    ensures n <= |c| && outcome != Aborted ==> vec.Settled(c[..n]) && vec.dropped == old(vec.dropped) + c[n..]
  {
    hide Laid;
    var end := vec.len;
    outcome := Done;
    if n > end {
      return;
    }
    vec.len := n;
    SlotsKept(vec.slots, c, n);
    var i, panicked := DropSlots(vec, n, n, end, panics, c);
    if panicked {
      outcome := Panicked;
      ghost var first := i;
      i, panicked := DropSlots(vec, n, i, end, panics, c);
      Cut(c, n, first, i);
      if panicked {
        return Aborted;
      }
    }
    assert c[n..end] == c[n..];
    SlotsDropped(vec.slots, c, n);
  }

  /** The loop of `retain`: kept elements first, then `del` to go, or everything after a panic. */
  method RetainLoop<T(!new)>(vec: Vec<T>, pred: Predicate<T>, ghost s: seq<T>)
    returns (del: nat, panicked: bool, ghost c: seq<T>)
    requires vec.Settled(s) && LooksOnly(pred)
    modifies vec`slots
    ensures vec.Settled(c) && |c| == |s| && del <= |s| && multiset(c) == multiset(s)
    ensures panicked == Ahead(pred, 0, 0, s).panicked
    ensures !panicked ==>
              && Ahead(pred, 0, 0, s).kept == c[..|s| - del]
              && multiset(Ahead(pred, 0, 0, s).gone) == multiset(c[|s| - del..])
  {
    hide Ahead, Swapped, Swap, Laid, LooksOnly;
    var i := 0;
    del, c, panicked := 0, s, false;
    SwappedStart(pred, s);
    while i < vec.len
      invariant 0 <= del <= i <= vec.len == |s| == |c|
      invariant vec.Settled(c) && Swapped(pred, s, c, i, del) && multiset(c) == multiset(s)
    {
      var v := RetainStep(vec, pred, i, del, s, c);
      if v == Panic {
        panicked := true;
        return;
      }
      if v == Remove {
        del := del + 1;
      } else {
        SwapKeepsElements(c, i - del, i);
        c := Swap(c, i - del, i);
      }
      i := i + 1;
    }
    SweptAll(pred, s, c, del);
  }

  /** `retain`: the same result as a sweep, by swaps.  After a panic of the predicate the vector still
      holds every element once; after one of a destructor it holds what was kept. */
  method Retain<T(!new)>(vec: Vec<T>, pred: Predicate<T>, panics: nat -> bool, ghost s: seq<T>)
    returns (outcome: Outcome, ghost c: seq<T>, ghost lost: seq<T>)
    requires vec.Settled(s) && LooksOnly(pred)
    modifies vec
    ensures var w := Ahead(pred, 0, 0, s);
            && (w.panicked ==> outcome == Panicked && multiset(c) == multiset(s) && lost == [])
            && (!w.panicked ==>
                  && outcome == Ending(PanicCount(panics, |old(vec.dropped)|, |lost|))
                  && c == w.kept && multiset(lost) == multiset(w.gone))
    ensures outcome != Aborted ==> vec.Settled(c) && vec.dropped == old(vec.dropped) + lost
  {
    hide Ahead, Swapped, Laid, LooksOnly, PanicCount;
    var len := vec.len;
    var del, panicked;
    del, panicked, c := RetainLoop(vec, pred, s);
    if panicked {
      return Panicked, c, [];
    }
    lost := c[len - del..];
    if del > 0 {
      outcome := Truncate(vec, len - del, panics, c);
    } else {
      outcome := Done;
      NoneLost(panics, |vec.dropped|);
      assert c[..len] == c && c[len..] == [];
    }
    c := c[..len - del];
  }
}
