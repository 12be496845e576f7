/** `Vec::drain_filter`: removing the elements a predicate selects, in place, with a predicate that may
    change the elements it looks at and may panic, as may the destructors of what it selects. */
module VecFilter {
  import opened Wrappers
  import opened Slices
  import opened VecBuffer

  datatype Verdict = Keep | Remove | Panic

  /** One call of the predicate on `&mut T`: what it leaves in the slot, and what it decides. */
  datatype Judged<+T> = Judged(value: T, verdict: Verdict)

  /** The closure: what its `n`-th call does with an element. */
  type Predicate<!T> = (nat, T) -> Judged<T>

  /** What judging a sequence comes to, up to the end or to the first panic. */
  datatype Swept<T> = Swept(kept: seq<T>, gone: seq<T>, rest: seq<T>, panicked: bool)

  /** Judges `s` from call `n` on and disposes of what is to go at once; `bad(k)` says whether disposing
      of the `k`-th element to go panics. */
  ghost function Sweep<T>(pred: Predicate<T>, bad: nat -> bool, n: nat, k: nat, s: seq<T>): (w: Swept<T>)
    ensures |w.kept| + |w.gone| + |w.rest| == |s|
    ensures w.rest != [] ==> w.panicked
    decreases |s|
  {
    if s == [] then Swept([], [], [], false)
    else
      var j := pred(n, s[0]);
      match j.verdict
      case Panic => Swept([], [], [j.value] + s[1..], true)
      case Keep =>
        var w := Sweep(pred, bad, n + 1, k, s[1..]);
        w.(kept := [j.value] + w.kept)
      case Remove =>
        if bad(k) then Swept([], [j.value], s[1..], true)
        else
          var w := Sweep(pred, bad, n + 1, k + 1, s[1..]);
          w.(gone := [j.value] + w.gone)
  }

  ghost function Select<T>(p: T -> bool, s: seq<T>): seq<T> {
    if s == [] then []
    else if p(s[0]) then [s[0]] + Select(p, s[1..])
    else Select(p, s[1..])
  }

  /** A predicate that only looks, without any panic, splits the sequence into its two filters. */
  lemma {:induction false} SweepIsFilter<T(!new)>(pred: Predicate<T>, p: T -> bool, bad: nat -> bool, n: nat, k: nat,
                                                  s: seq<T>)
    requires forall m: nat, x :: pred(m, x) == Judged(x, if p(x) then Remove else Keep)
    requires forall m: nat :: !bad(m)
    ensures Sweep(pred, bad, n, k, s) == Swept(Select(x => !p(x), s), Select(p, s), [], false)
    decreases |s|
  {
    if s != [] { SweepIsFilter(pred, p, bad, n + 1, if p(s[0]) then k + 1 else k, s[1..]); }
  }

  lemma SweepStep<T>(pred: Predicate<T>, bad: nat -> bool, n: nat, k: nat, s: seq<T>)
    requires s != []
    ensures var w, j, t := Sweep(pred, bad, n, k, s), pred(n, s[0]), s[1..];
            && (j.verdict == Panic ==> w == Swept([], [], [j.value] + t, true))
            && (j.verdict == Remove && bad(k) ==> w == Swept([], [j.value], t, true))
            && (j.verdict == Keep ==>
                  var r := Sweep(pred, bad, n + 1, k, t); w == r.(kept := [j.value] + r.kept))
            && (j.verdict == Remove && !bad(k) ==>
                  var r := Sweep(pred, bad, n + 1, k + 1, t); w == r.(gone := [j.value] + r.gone))
  {
  }

  lemma SweepEnd<T>(pred: Predicate<T>, bad: nat -> bool, n: nat, k: nat)
    ensures Sweep(pred, bad, n, k, []) == Swept([], [], [], false)
  {
  }

  /** What the predicate does with each element, if it is called on all of them. */
  ghost function Judgements<T>(pred: Predicate<T>, n: nat, s: seq<T>): (js: seq<Judged<T>>)
    ensures |js| == |s| && forall i :: 0 <= i < |s| ==> js[i] == pred(n + i, s[i])
  {
    seq(|s|, i requires 0 <= i < |s| => pred(n + i, s[i]))
  }

  lemma JudgementsTail<T>(pred: Predicate<T>, n: nat, s: seq<T>)
    requires s != []
    ensures Judgements(pred, n, s) == [pred(n, s[0])] + Judgements(pred, n + 1, s[1..])
  {
  }

  ghost predicate Rising(at: seq<nat>) {
    forall i, j :: 0 <= i < j < |at| ==> at[i] < at[j]
  }

  ghost function Shifted(at: seq<nat>): (r: seq<nat>)
    ensures |r| == |at| && forall i :: 0 <= i < |at| ==> r[i] == at[i] + 1
  {
    seq(|at|, i requires 0 <= i < |at| => at[i] + 1)
  }

  lemma InShifted(at: seq<nat>, j: nat)
    ensures j in Shifted(at) <==> 0 < j && j - 1 in at
  {
    if j in Shifted(at) {
      var i :| 0 <= i < |at| && Shifted(at)[i] == j;
      assert at[i] == j - 1;
    }
    if 0 < j && j - 1 in at {
      var i :| 0 <= i < |at| && at[i] == j - 1;
      assert Shifted(at)[i] == j;
    }
  }

  /** `part` is what the predicate left of the elements at the positions `at`, in order. */
  ghost predicate Taken<T>(js: seq<Judged<T>>, part: seq<T>, at: seq<nat>) {
    && |at| == |part| && Rising(at)
    && forall i :: 0 <= i < |at| ==> at[i] < |js| && part[i] == js[at[i]].value
  }

  /** The positions with this verdict. */
  ghost predicate Positions<T>(js: seq<Judged<T>>, verdict: Verdict, at: seq<nat>) {
    forall j: nat :: j < |js| ==> (j in at <==> js[j].verdict == verdict)
  }

  lemma TakenMore<T>(x: Judged<T>, js: seq<Judged<T>>, part: seq<T>, at: seq<nat>)
    requires Taken(js, part, at)
    ensures Taken([x] + js, part, Shifted(at)) && Taken([x] + js, [x.value] + part, [0] + Shifted(at))
  {
  }

  lemma PositionsMore<T>(x: Judged<T>, js: seq<Judged<T>>, verdict: Verdict, at: seq<nat>)
    requires Positions(js, verdict, at)
    ensures Positions([x] + js, verdict, (if x.verdict == verdict then [0] else []) + Shifted(at))
  {
    hide Shifted;
    forall j: nat | j < 1 + |js|
      ensures j in (if x.verdict == verdict then [0] else []) + Shifted(at) <==> ([x] + js)[j].verdict == verdict
    {
      InShifted(at, j);
    }
  }

  /** Everything judged is kept or gone, in order, as the predicate left it and by its verdict. */
  ghost predicate Picks<T>(js: seq<Judged<T>>, w: Swept<T>, keptAt: seq<nat>, goneAt: seq<nat>) {
    && Taken(js, w.kept, keptAt) && Positions(js, Keep, keptAt)
    && Taken(js, w.gone, goneAt) && Positions(js, Remove, goneAt)
  }

  lemma PicksMore<T>(x: Judged<T>, js: seq<Judged<T>>, w: Swept<T>, keptAt: seq<nat>, goneAt: seq<nat>)
    requires Picks(js, w, keptAt, goneAt) && x.verdict != Panic
    ensures if x.verdict == Keep
            then Picks([x] + js, w.(kept := [x.value] + w.kept), [0] + Shifted(keptAt), [] + Shifted(goneAt))
            else Picks([x] + js, w.(gone := [x.value] + w.gone), [] + Shifted(keptAt), [0] + Shifted(goneAt))
  {
    hide Taken, Positions, Shifted;
    TakenMore(x, js, w.kept, keptAt);
    TakenMore(x, js, w.gone, goneAt);
    PositionsMore(x, js, Keep, keptAt);
    PositionsMore(x, js, Remove, goneAt);
    assert [] + Shifted(keptAt) == Shifted(keptAt) && [] + Shifted(goneAt) == Shifted(goneAt);
  }

  lemma PicksNone<T>(w: Swept<T>)
    ensures w.kept == [] && w.gone == [] ==> Picks([], w, [], [])
  {
  }

  lemma PicksLast<T>(x: Judged<T>, rest: seq<T>)
    requires x.verdict == Remove
    ensures Picks([x], Swept([], [x.value], rest, true), [], [0])
  {
  }

  lemma {:induction false} SweepPicks<T>(pred: Predicate<T>, bad: nat -> bool, n: nat, k: nat, s: seq<T>)
    returns (keptAt: seq<nat>, goneAt: seq<nat>)
    ensures var w := Sweep(pred, bad, n, k, s);
            Picks(Judgements(pred, n, s[..|w.kept| + |w.gone|]), w, keptAt, goneAt)
    decreases |s|
  {
    hide Picks, Judgements, Shifted, Sweep;
    keptAt, goneAt := [], [];
    var w := Sweep(pred, bad, n, k, s);
    JudgementsNone(pred, n);
    PicksNone(w);
    if s == [] {
      SweepEnd(pred, bad, n, k);
      return;
    }
    var x, front := pred(n, s[0]), s[..|w.kept| + |w.gone|];
    SweepStep(pred, bad, n, k, s);
    if x.verdict == Panic {
      assert front == [];
      return;
    }
    assert front[0] == s[0];
    JudgementsTail(pred, n, front);
    if x.verdict == Remove && bad(k) {
      assert front[1..] == [];
      JudgementsNone(pred, n + 1);
      assert Judgements(pred, n, front) == [x] + [] == [x];
      PicksLast(x, w.rest);
      return [], [0];
    }
    var l := if x.verdict == Remove then k + 1 else k;
    var r := Sweep(pred, bad, n + 1, l, s[1..]);
    keptAt, goneAt := SweepPicks(pred, bad, n + 1, l, s[1..]);
    assert front[1..] == s[1..][..|r.kept| + |r.gone|];
    PicksMore(x, Judgements(pred, n + 1, front[1..]), r, keptAt, goneAt);
    keptAt := (if x.verdict == Keep then [0] else []) + Shifted(keptAt);
    goneAt := (if x.verdict == Remove then [0] else []) + Shifted(goneAt);
  }

  lemma JudgementsNone<T>(pred: Predicate<T>, n: nat)
    ensures Judgements(pred, n, []) == []
  {
  }

  /** Where judging stops: at the end, at the first panic of the predicate, or behind the first element
      to go whose disposal panics.  What is behind is untouched. */
  ghost predicate Stops<T>(pred: Predicate<T>, bad: nat -> bool, n: nat, k: nat, s: seq<T>, w: Swept<T>) {
    var m, g := |w.kept| + |w.gone|, |w.gone|;
    && m <= |s|
    && (w.panicked ==>
          || (m < |s| && pred(n + m, s[m]).verdict == Panic && w.rest == [pred(n + m, s[m]).value] + s[m + 1..])
          || (g > 0 && bad(k + g - 1) && w.rest == s[m..]))
    && (!w.panicked ==> m == |s| && w.rest == [])
    && (forall i :: 0 <= i < m ==> pred(n + i, s[i]).verdict != Panic)
    && (forall q :: k <= q < k + g && bad(q) ==> w.panicked && q == k + g - 1)
  }

  lemma StopsKept<T>(pred: Predicate<T>, bad: nat -> bool, n: nat, k: nat, s: seq<T>, r: Swept<T>)
    requires s != [] && pred(n, s[0]).verdict == Keep && Stops(pred, bad, n + 1, k, s[1..], r)
    ensures Stops(pred, bad, n, k, s, r.(kept := [pred(n, s[0]).value] + r.kept))
  {
    var m := |r.kept| + |r.gone|;
    assert m < |s| - 1 ==> s[1..][m] == s[m + 1] && s[1..][m + 1..] == s[m + 2..];
    assert s[1..][m..] == s[m + 1..];
    forall i | 0 < i <= m ensures pred(n + i, s[i]).verdict != Panic { assert s[1..][i - 1] == s[i]; }
  }

  lemma StopsGone<T>(pred: Predicate<T>, bad: nat -> bool, n: nat, k: nat, s: seq<T>, r: Swept<T>)
    requires s != [] && pred(n, s[0]).verdict == Remove && !bad(k) && Stops(pred, bad, n + 1, k + 1, s[1..], r)
    ensures Stops(pred, bad, n, k, s, r.(gone := [pred(n, s[0]).value] + r.gone))
  {
    var m := |r.kept| + |r.gone|;
    assert m < |s| - 1 ==> s[1..][m] == s[m + 1] && s[1..][m + 1..] == s[m + 2..];
    assert s[1..][m..] == s[m + 1..];
    forall i | 0 < i <= m ensures pred(n + i, s[i]).verdict != Panic { assert s[1..][i - 1] == s[i]; }
  }

  lemma StopsHere<T>(pred: Predicate<T>, bad: nat -> bool, n: nat, k: nat, s: seq<T>)
    ensures s == [] ==> Stops(pred, bad, n, k, s, Swept([], [], [], false))
    ensures s != [] && pred(n, s[0]).verdict == Panic ==>
              Stops(pred, bad, n, k, s, Swept([], [], [pred(n, s[0]).value] + s[1..], true))
    ensures s != [] && pred(n, s[0]).verdict == Remove && bad(k) ==>
              Stops(pred, bad, n, k, s, Swept([], [pred(n, s[0]).value], s[1..], true))
  {
  }

  lemma {:induction false} SweepStops<T>(pred: Predicate<T>, bad: nat -> bool, n: nat, k: nat, s: seq<T>)
    ensures Stops(pred, bad, n, k, s, Sweep(pred, bad, n, k, s))
    decreases |s|
  {
    hide Stops, Sweep;
    StopsHere(pred, bad, n, k, s);
    if s == [] {
      SweepEnd(pred, bad, n, k);
    } else {
      SweepStep(pred, bad, n, k, s);
      var v := pred(n, s[0]).verdict;
      if v == Keep {
        SweepStops(pred, bad, n + 1, k, s[1..]);
        StopsKept(pred, bad, n, k, s, Sweep(pred, bad, n + 1, k, s[1..]));
      } else if v == Remove && !bad(k) {
        SweepStops(pred, bad, n + 1, k + 1, s[1..]);
        StopsGone(pred, bad, n, k, s, Sweep(pred, bad, n + 1, k + 1, s[1..]));
      }
    }
  }

  ghost predicate Conserved<T>(w: Swept<T>, s: seq<T>) {
    multiset(w.kept) + multiset(w.gone) + multiset(w.rest) == multiset(s)
  }

  lemma KeptConserved<T>(w: Swept<T>, x: T, t: seq<T>)
    requires Conserved(w, t)
    ensures Conserved(w.(kept := [x] + w.kept), [x] + t)
  {
    assert multiset([x] + w.kept) == multiset{x} + multiset(w.kept);
    assert multiset([x] + t) == multiset{x} + multiset(t);
  }

  lemma GoneConserved<T>(w: Swept<T>, x: T, t: seq<T>)
    requires Conserved(w, t)
    ensures Conserved(w.(gone := [x] + w.gone), [x] + t)
  {
    assert multiset([x] + w.gone) == multiset{x} + multiset(w.gone);
    assert multiset([x] + t) == multiset{x} + multiset(t);
  }

  lemma StoppedConserved<T>(x: T, t: seq<T>)
    ensures Conserved(Swept([], [], [x] + t, true), [x] + t)
    ensures Conserved(Swept([], [x], t, true), [x] + t)
  {
    assert multiset([x] + t) == multiset{x} + multiset(t);
  }

  /** A predicate that does not change elements loses and doubles none, whatever panics. */
  lemma {:induction false} SweepConserves<T(!new)>(pred: Predicate<T>, bad: nat -> bool, n: nat, k: nat, s: seq<T>)
    requires forall m: nat, x :: pred(m, x).value == x
    ensures Conserved(Sweep(pred, bad, n, k, s), s)
    decreases |s|
  {
    hide Conserved, Sweep;
    if s == [] {
      SweepEnd(pred, bad, n, k);
      NothingConserved<T>();
    } else {
      var x, t, v := s[0], s[1..], pred(n, s[0]).verdict;
      assert s == [x] + t;
      SweepStep(pred, bad, n, k, s);
      if v == Panic || (v == Remove && bad(k)) {
        StoppedConserved(x, t);
      } else if v == Keep {
        SweepConserves(pred, bad, n + 1, k, t);
        KeptConserved(Sweep(pred, bad, n + 1, k, t), x, t);
      } else {
        SweepConserves(pred, bad, n + 1, k + 1, t);
        GoneConserved(Sweep(pred, bad, n + 1, k + 1, t), x, t);
      }
    }
  }

  lemma NothingConserved<T>()
    ensures Conserved<T>(Swept([], [], [], false), [])
  {
  }

  // -----------------------------------------------------------------------------------------
  // Slots

  lemma KeepOne<T>(s: seq<Slot<T>>, kept: seq<T>, at: nat, rest: seq<T>, x: T)
    requires Laid(s, kept, at, rest) && rest != []
    ensures |kept| < at ==> s[|kept|] == Empty
    ensures |kept| == at ==> Moved(s[at := Full(x)], at, |kept|, 1) == s[at := Full(x)]
    ensures Laid(Moved(s[at := Full(x)], at, |kept|, 1), kept + [x], at + 1, rest[1..])
  {
  }

  lemma Unjudged<T>(s: seq<Slot<T>>, kept: seq<T>, at: nat, rest: seq<T>)
    requires Laid(s, kept, at, rest) && rest != []
    ensures at < |s| && |kept| <= at && s[at] == Full(rest[0])
  {
  }

  lemma RemoveOne<T>(s: seq<Slot<T>>, kept: seq<T>, at: nat, rest: seq<T>)
    requires Laid(s, kept, at, rest) && rest != []
    ensures Laid(s[at := Empty], kept, at + 1, rest[1..])
  {
  }

  lemma Mutated<T>(s: seq<Slot<T>>, kept: seq<T>, at: nat, rest: seq<T>, x: T)
    requires Laid(s, kept, at, rest) && rest != []
    ensures Laid(s[at := Full(x)], kept, at, [x] + rest[1..])
  {
  }

  // -----------------------------------------------------------------------------------------
  // drain_filter

  /** What has been judged, continued by what judging the rest comes to. */
  ghost function Continued<T>(kept: seq<T>, gone: seq<T>, w: Swept<T>): Swept<T> {
    Swept(kept + w.kept, gone + w.gone, w.rest, w.panicked)
  }

  /** One more judgement leaves the outcome as it was, or is the outcome. */
  lemma ContinuedStep<T>(pred: Predicate<T>, bad: nat -> bool, n: nat, k: nat, kept: seq<T>, gone: seq<T>, s: seq<T>)
    requires s != []
    ensures var o, j, t := Continued(kept, gone, Sweep(pred, bad, n, k, s)), pred(n, s[0]), s[1..];
            && (j.verdict == Panic ==> o == Swept(kept, gone, [j.value] + t, true))
            && (j.verdict == Keep ==> o == Continued(kept + [j.value], gone, Sweep(pred, bad, n + 1, k, t)))
            && (j.verdict == Remove && bad(k) ==> o == Swept(kept, gone + [j.value], t, true))
            && (j.verdict == Remove && !bad(k) ==>
                  o == Continued(kept, gone + [j.value], Sweep(pred, bad, n + 1, k + 1, t)))
  {
    hide Sweep;
    SweepStep(pred, bad, n, k, s);
    var j, t := pred(n, s[0]), s[1..];
    Assoc(kept, [j.value], Sweep(pred, bad, n + 1, k, t).kept);
    Assoc(gone, [j.value], Sweep(pred, bad, n + 1, k + 1, t).gone);
  }

  lemma ContinuedEnd<T>(pred: Predicate<T>, bad: nat -> bool, n: nat, k: nat, kept: seq<T>, gone: seq<T>)
    ensures Continued(kept, gone, Sweep(pred, bad, n, k, [])) == Swept(kept, gone, [], false)
  {
  }

  lemma ContinuedStart<T>(w: Swept<T>)
    ensures Continued([], [], w) == w
  {
  }

  class DrainFilter<T> {
    const vec: Vec<T>
    const pred: Predicate<T>
    const bad: nat -> bool    // whether the destructor of the k-th element to go panics
    const oldLen: nat
    var idx: nat
    var del: nat
    var panicFlag: bool
    var calls: nat            // how often the predicate has been called
    ghost var kept: seq<T>    // judged and kept, in order
    ghost var gone: seq<T>    // judged and handed out, in order
    ghost var rest: seq<T>    // not judged yet

    /** The length is zero, so a leaked editor exposes nothing. */
    ghost predicate Valid()
      reads this, vec
    {
      && vec.len == 0
      && |kept| == idx - del && |gone| == del && idx + |rest| == oldLen && (panicFlag ==> rest != [])
      && Laid(vec.slots, kept, idx, rest)
    }

    /** Where judging the rest, and disposing of what is to go, would lead. */
    ghost function Outlook(): Swept<T>
      reads this
    {
      Continued(kept, gone, Sweep(pred, bad, calls, del, rest))
    }

    constructor (vec: Vec<T>, pred: Predicate<T>, bad: nat -> bool, ghost contents: seq<T>)
      requires vec.Settled(contents)
      modifies vec`len
      ensures this.vec == vec && this.pred == pred && this.bad == bad && Valid() && !panicFlag
      ensures gone == [] && Outlook() == Sweep(pred, bad, 0, 0, contents)
    {
      var n := vec.len;
      vec.len := 0;
      this.vec, this.pred, this.bad, oldLen := vec, pred, bad, n;
      idx, del, panicFlag, calls := 0, 0, false, 0;
      kept, gone, rest := [], [], contents;
      ContinuedStart(Sweep(pred, bad, 0, 0, contents));
    }

    /** Judges one element; `taken` is the element if it is to go. */
    method JudgeOne() returns (taken: Option<T>)
      requires Valid() && idx < oldLen
      modifies this`idx, this`del, this`panicFlag, this`calls, this`kept, this`gone, this`rest, vec`slots
      ensures Valid() && calls == old(calls) + 1
      ensures var j := pred(old(calls), old(rest)[0]);
              match j.verdict
              case Panic =>
                && panicFlag && taken == None
                && kept == old(kept) && gone == old(gone) && rest == [j.value] + old(rest)[1..]
              case Keep =>
                && !panicFlag && taken == None
                && kept == old(kept) + [j.value] && gone == old(gone) && rest == old(rest)[1..]
              case Remove =>
                && !panicFlag && taken == Some(j.value)
                && kept == old(kept) && gone == old(gone) + [j.value] && rest == old(rest)[1..]
    {
      hide Laid, Moved;
      var i := idx;
      taken := None;
      panicFlag := true;
      ghost var s := vec.slots;
      Unjudged(s, kept, i, rest);
      var j := pred(calls, vec.slots[i].value);
      calls := calls + 1;
      vec.slots := vec.slots[i := Full(j.value)];
      if j.verdict == Panic {
        Mutated(s, kept, i, rest, j.value);
        rest := [j.value] + rest[1..];
        return;
      }
      panicFlag := false;
      idx := idx + 1;
      if j.verdict == Remove {
        taken := TakeOut(i, s);
      } else {
        MoveDown(i, s);
      }
      rest := rest[1..];
    }

    /** The judged element at `i` leaves the buffer. */
    method TakeOut(i: nat, ghost s: seq<Slot<T>>) returns (taken: Option<T>)
      requires Laid(s, kept, i, rest) && rest != [] && i < |s|
      requires |vec.slots| == |s| && vec.slots[i].Full? && vec.slots == s[i := vec.slots[i]]
      modifies this`del, this`gone, vec`slots
      ensures taken == Some(old(vec.slots)[i].value) && del == old(del) + 1 && gone == old(gone) + [taken.value]
      ensures Laid(vec.slots, kept, i + 1, rest[1..])
    {
      hide Laid;
      RemoveOne(s, kept, i, rest);
      del := del + 1;
      var x := vec.Take(i);
      gone := gone + [x];
      assert vec.slots == s[i := Empty];
      taken := Some(x);
    }

    /** The judged element at `i` moves down behind the kept ones. */
    method MoveDown(i: nat, ghost s: seq<Slot<T>>)
      requires Laid(s, kept, i, rest) && rest != [] && i < |s| && del <= i && |kept| == i - del
      requires |vec.slots| == |s| && vec.slots[i].Full? && vec.slots == s[i := vec.slots[i]]
      modifies this`kept, vec`slots
      ensures kept == old(kept) + [old(vec.slots)[i].value]
      ensures Laid(vec.slots, kept, i + 1, rest[1..])
    {
      hide Laid, Moved;
      ghost var x := vec.slots[i].value;
      KeepOne(s, kept, i, rest, x);
      if del > 0 {
        vec.Move(i, i - del, 1);
      }
      kept := kept + [x];
    }

    /** The next element to go, or none, or a panic of the predicate. */
    method Next() returns (r: Option<T>, panicked: bool)
      requires Valid()
      modifies this`idx, this`del, this`panicFlag, this`calls, this`kept, this`gone, this`rest, vec`slots
      ensures Valid() && panicFlag == panicked
      ensures r.Some? ==> !panicked && gone == old(gone) + [r.value] && |rest| < |old(rest)|
      ensures r.None? ==> gone == old(gone) && (panicked || rest == [])
      ensures r.None? && !panicked ==> old(Outlook()) == Swept(kept, gone, [], false)
      ensures panicked || (r.Some? && bad(old(del))) ==> old(Outlook()) == Swept(kept, gone, rest, true)
      ensures r.Some? && !bad(old(del)) ==> Outlook() == old(Outlook())
    {
      hide Laid, Sweep, Continued;
      ghost var o := Outlook();
      r, panicked := None, false;
      while idx < oldLen
        invariant Valid() && gone == old(gone) && Outlook() == o && r == None && !panicked
        invariant |rest| <= |old(rest)|
        invariant panicFlag ==> rest == old(rest) && rest != []
        decreases oldLen - idx
      {
        ContinuedStep(pred, bad, calls, del, kept, gone, rest);
        r := JudgeOne();
        panicked := panicFlag;
        if panicked || r.Some? {
          return;
        }
      }
      ContinuedEnd(pred, bad, calls, del, kept, gone);
    }

    /** The end of the destructor: unjudged elements are moved down and exposed again. */
    method Backshift()
      requires Valid()
      modifies vec`slots, vec`len
      ensures vec.Settled(kept + rest)
    {
      if idx < oldLen && del > 0 {
        vec.Move(idx, idx - del, oldLen - idx);
      }
      vec.len := oldLen - del;
    }

    /** Judges the rest, dropping what is to go, up to the end or to a panic of the predicate or of a
        destructor. */
    method DropSelected() returns (panicked: bool, ghost lost: seq<T>)
      requires Valid() && !panicFlag
      modifies this`idx, this`del, this`panicFlag, this`calls, this`kept, this`gone, this`rest, vec`slots, vec`dropped
      ensures Valid()
      ensures Swept(kept, gone, rest, panicked) == old(Outlook())
      ensures vec.dropped == old(vec.dropped) + lost && gone == old(gone) + lost
    {
      hide Laid, Sweep, Continued;
      ghost var o := Outlook();
      lost, panicked := [], false;
      var done := false;
      while !done
        invariant Valid()
        invariant vec.dropped == old(vec.dropped) + lost && gone == old(gone) + lost
        invariant !done ==> Outlook() == o && !panicked
        invariant done ==> o == Swept(kept, gone, rest, panicked)
        decreases !done, |rest|
      {
        ghost var g := gone;
        var item;
        item, panicked := Next();
        if item.Some? {
          DroppedOne(old(gone), lost, item.value);
          DroppedOne(old(vec.dropped), lost, item.value);
          panicked := bad(del - 1);
          vec.dropped := vec.dropped + [item.value];
          lost := lost + [item.value];
        }
        done := panicked || item.None?;
      }
    }

    /** The destructor: judges the rest unless the predicate has already panicked, drops what is to
        go, and gives the vector back what was kept and what was never judged, also after a panic. */
    method Drop() returns (panicked: bool)
      requires Valid()
      modifies this, vec
      ensures old(panicFlag) ==>
                !panicked && vec.Settled(old(kept) + old(rest)) && vec.dropped == old(vec.dropped)
      ensures !old(panicFlag) ==>
                && panicked == old(Outlook()).panicked
                && vec.Settled(old(Outlook()).kept + old(Outlook()).rest)
                && vec.dropped == old(vec.dropped) + old(Sweep(pred, bad, calls, del, rest).gone)
    {
      hide Laid, Sweep;
      panicked := false;
      if !panicFlag {
        ghost var lost;
        panicked, lost := DropSelected();
        SamePrefix(old(gone), lost, old(Sweep(pred, bad, calls, del, rest).gone));
      }
      Backshift();
    }
  }

  lemma DroppedOne<T>(a: seq<T>, lost: seq<T>, x: T)
    ensures (a + lost) + [x] == a + (lost + [x])
  {
  }

  lemma SamePrefix<T>(a: seq<T>, b: seq<T>, c: seq<T>)
    requires a + b == a + c
    ensures b == c
  {
    assert b == (a + b)[|a|..] && c == (a + c)[|a|..];
  }

  /** The destructors that the editor itself runs: those after the elements the caller took. */
  function AfterAsks(asks: nat, panics: nat -> bool): nat -> bool {
    k => k >= asks && panics(k)
  }

  /** A whole life of the editor: any number of elements asked for, then the destructor.  The caller
      and the destructor between them get exactly the selected elements, in order, and the vector
      keeps the others; a panic of the predicate leaves everything from that element on in place, and
      one of a destructor everything behind its element. */
  method DrainFilterSession<T>(vec: Vec<T>, pred: Predicate<T>, panics: nat -> bool, asks: nat, ghost contents: seq<T>)
    returns (yielded: seq<T>, panicked: bool)
    requires vec.Settled(contents)
    modifies vec
    ensures |yielded| <= asks
    ensures var w := Sweep(pred, AfterAsks(asks, panics), 0, 0, contents);
            && vec.Settled(w.kept + w.rest)
            && old(vec.dropped) <= vec.dropped
            && yielded + vec.dropped[|old(vec.dropped)|..] == w.gone
            && panicked == w.panicked
  {
    hide Laid, Sweep, Continued;
    var bad := AfterAsks(asks, panics);
    ghost var w := Sweep(pred, bad, 0, 0, contents);
    var editor := new DrainFilter(vec, pred, bad, contents);
    yielded, panicked := [], false;
    var n := 0;
    while n < asks && !panicked
      invariant editor.Valid() && editor.vec == vec && editor.bad == bad && fresh(editor)
      invariant editor.panicFlag == panicked
      invariant vec.dropped == old(vec.dropped) && editor.gone == yielded && |yielded| <= n <= asks
      invariant !panicked ==> editor.Outlook() == w
      invariant panicked ==> w == Swept(editor.kept, yielded, editor.rest, true)
      decreases asks - n, !panicked
    {
      var item;
      item, panicked := editor.Next();
      if item.Some? { yielded := yielded + [item.value]; }
      n := n + 1;
      if item.None? && !panicked { ContinuedEnd(pred, bad, editor.calls, editor.del, editor.kept, yielded); }
    }
    ContinuedParts(editor.kept, editor.gone, Sweep(editor.pred, bad, editor.calls, editor.del, editor.rest));
    var again := editor.Drop();
    panicked := panicked || again;
  }

  lemma ContinuedParts<T>(kept: seq<T>, gone: seq<T>, w: Swept<T>)
    ensures Continued(kept, gone, w).gone == gone + w.gone
  {
  }
}
