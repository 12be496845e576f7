/** How final a strong count of zero is.  `Weak::upgrade` gives up when it reads zero, on the grounds
    that a zero it can observe is permanent.  This module shows a zero that is not, and states
    exactly which ones are. */
module ArcZero {
  import opened Wrappers
  import opened Counting
  import opened ArcProtocol

  lemma {:induction false} RunsAppend(s: State, a: seq<Step>, b: seq<Step>)
    requires Runs(s, a) && Runs(Final(s, a), b)
    ensures Runs(s, a + b) && Final(s, a + b) == Final(Final(s, a), b)
    decreases |a|
  {
    hide Enabled, Next;
    if a == [] {
      assert a + b == b;
    } else {
      assert (a + b)[1..] == a[1..] + b;
      RunsAppend(Next(s, a[0]), a[1..], b);
    }
  }

  lemma RunOne(s: State, step: Step)
    requires Enabled(s, step)
    ensures Runs(s, [step]) && Final(s, [step]) == Next(s, step)
  {
  }

  // -----------------------------------------------------------------------------------------
  // A zero that is seen and taken back

  /** A strong and a weak handle, nothing in progress. */
  ghost function Shared(): State {
    State(1, 2, Live, 0, 0, {0}, {1}, map[])
  }

  /** The window of `make_mut` is open and an `upgrade` has read zero. */
  ghost function InWindow(): State {
    State(0, 2, Live, 0, 0, {0}, {1}, map[0 := CheckingWeak(0), 1 := Upgrading(1, 0)])
  }

  /** The window is open and the weak handle gone. */
  ghost function Unwatched(): State {
    State(0, 1, Live, 0, 0, {0}, {}, map[0 := CheckingWeak(0)])
  }

  /** A weak handle sees the zero inside the window of `make_mut`. */
  ghost function SeeZero(): seq<Step> {
    [StartDowngrade(0, 0), DowngradeCas(0, 1, false)] + [MakeMut(0, 0), StartUpgrade(1, 1)]
  }

  /** It is dropped before the window looks at the weak count, and the window is closed. */
  ghost function CloseWindow(): seq<Step> {
    [UpgradeNone(1), DropWeak(1, 1)] + [LoadWeak(0), Restore(0)]
  }

  lemma RunOfTwo(s: State, a: Step, b: Step)
    requires Enabled(s, a) && Enabled(Next(s, a), b)
    ensures Runs(s, [a, b]) && Final(s, [a, b]) == Next(Next(s, a), b)
  {
    hide Enabled, Next, Runs, Final;
    RunOne(s, a);
    RunOne(Next(s, a), b);
    RunsAppend(s, [a], [b]);
    assert [a] + [b] == [a, b];
  }

  lemma DowngradeRuns()
    ensures var s, steps := NewBlock(0, false, 0), [StartDowngrade(0, 0), DowngradeCas(0, 1, false)];
            Runs(s, steps) && Final(s, steps) == Shared()
  {
    hide Runs, Final;
    RunOfTwo(NewBlock(0, false, 0), StartDowngrade(0, 0), DowngradeCas(0, 1, false));
  }

  lemma OpenRuns()
    ensures var steps := [MakeMut(0, 0), StartUpgrade(1, 1)];
            Runs(Shared(), steps) && Final(Shared(), steps) == InWindow()
  {
    hide Runs, Final;
    RunOfTwo(Shared(), MakeMut(0, 0), StartUpgrade(1, 1));
  }

  lemma EndSeen()
    ensures Enabled(InWindow(), UpgradeNone(1))
    ensures Next(InWindow(), UpgradeNone(1)) == State(0, 2, Live, 0, 0, {0}, {1}, map[0 := CheckingWeak(0)])
  {
  }

  lemma LeaveRuns()
    ensures var steps := [UpgradeNone(1), DropWeak(1, 1)];
            Runs(InWindow(), steps) && Final(InWindow(), steps) == Unwatched()
  {
    hide Runs, Final;
    EndSeen();
    RunOfTwo(InWindow(), UpgradeNone(1), DropWeak(1, 1));
    assert map[0 := CheckingWeak(0)] - {1} == map[0 := CheckingWeak(0)];
  }

  lemma CloseRuns()
    ensures var steps := [LoadWeak(0), Restore(0)];
            Runs(Unwatched(), steps) && Final(Unwatched(), steps).strong == 1
  {
    hide Runs, Final;
    RunOfTwo(Unwatched(), LoadWeak(0), Restore(0));
  }

  /** The comment on `upgrade` says that a zero once seen is permanent.  It is not: after this run a
      weak handle has read zero, and later the count is one again. */
  lemma ZeroCanComeBack()
    ensures exists s0, before, after ::
              && Init(s0) && Runs(s0, before) && Runs(s0, before + after)
              && Final(s0, before).strong == 0
              && 1 in Final(s0, before).ops && Final(s0, before).ops[1] == Upgrading(1, 0)
              && Final(s0, before + after).strong == 1
  {
    hide Runs, Final;
    var s0 := NewBlock(0, false, 0);
    DowngradeRuns();
    OpenRuns();
    RunsAppend(s0, [StartDowngrade(0, 0), DowngradeCas(0, 1, false)], [MakeMut(0, 0), StartUpgrade(1, 1)]);
    LeaveRuns();
    CloseRuns();
    RunsAppend(InWindow(), [UpgradeNone(1), DropWeak(1, 1)], [LoadWeak(0), Restore(0)]);
    RunsAppend(s0, SeeZero(), CloseWindow());
    assert Init(s0);
  }

  // -----------------------------------------------------------------------------------------
  // What an observer of a zero can rely on

  /** The steps that change a count of zero. */
  lemma CountShape(s: State, step: Step)
    requires s.strong == 0 && Enabled(s, step)
    ensures || Next(s, step).strong == 0
            || step.Clone? || step.DropArc? || step.CloneOut? || step.Restore? || step.Publish?
  {
  }

  /** While the count is zero no strong handle can be cloned or dropped: there is none, or it is the
      one inside the window. */
  lemma ZeroUnused(s: State, step: Step)
    requires Inv(s) && s.strong == 0 && Enabled(s, step)
    ensures !step.Clone? && !step.DropArc? && !step.CloneOut?
  {
    hide Locks, Windows, Lasts, Releases, Frees, Builds, Borrowed, Exclusive, Tracked;
    if step.Clone? || step.DropArc? {
      NoWindow(s, step.h, {});
      assert false;
    } else if step.CloneOut? {
      SoleUser(s, step.o);
      ArcOf(s, step.o);
      NoWindow(s, s.ops[step.o].arc, {step.o});
      assert false;
    }
  }

  /** `w` can have seen the count at zero, after the value was published. */
  ghost predicate ZeroSeen(s: State, w: Handle) {
    s.strong == 0 && w in s.weaks && Builds(s) == 0
  }

  /** What is true: as long as the weak handle that saw the zero exists, and the value has been
      published at all, the count stays zero. */
  lemma ZeroStays(s: State, step: Step, w: Handle)
    requires Inv(s) && ZeroSeen(s, w) && Enabled(s, step) && w in Next(s, step).weaks
    ensures ZeroSeen(Next(s, step), w)
  {
    hide Locks, Windows, Lasts, Releases, Frees, Builds, Borrowed;
    NoBuildStarts(s, step);
    hide Next;
    CountShape(s, step);
    ZeroUnused(s, step);
    if step.Publish? {
      InClass(s, step.o);
      assert false;
    }
  }

  ghost predicate StartsBy(s: State, step: Step, p: OpId, op: Op) {
    && (op.Restoring? ==> step == LoadWeak(p)) && (op.Publishing? ==> step == WriteData(p))
    && (op.CheckingWeak? ==> s.strong == 1) && !op.Building?
  }

  lemma ArcStartShape(s: State, step: Step)
    requires Enabled(s, step) && OnArc(step) && !step.Clone? && step.o in Next(s, step).ops
    requires step.o in s.ops ==> Next(s, step).ops[step.o] != s.ops[step.o]
    ensures StartsBy(s, step, step.o, Next(s, step).ops[step.o])
  {
    hide Enabled;
  }

  lemma OtherStartShape(s: State, step: Step)
    requires Enabled(s, step) && !OnArc(step) && !step.CloneWeak? && step.o in Next(s, step).ops
    requires step.o in s.ops ==> Next(s, step).ops[step.o] != s.ops[step.o]
    ensures StartsBy(s, step, step.o, Next(s, step).ops[step.o])
  {
    hide Enabled;
  }

  /** The steps that start an operation which can raise the count. */
  lemma StartShape(s: State, step: Step, p: OpId)
    requires Enabled(s, step)
    requires p in Next(s, step).ops && (p in s.ops ==> Next(s, step).ops[p] != s.ops[p])
    ensures StartsBy(s, step, p, Next(s, step).ops[p])
  {
    hide Enabled, Next, StartsBy;
    if step.Clone? || step.CloneWeak? || step.o != p {
      OpsLocal(s, step, p);
    } else if OnArc(step) {
      ArcStartShape(s, step);
    } else {
      OtherStartShape(s, step);
    }
  }

  /** No step starts a construction. */
  lemma NoBuildStarts(s: State, step: Step)
    requires Enabled(s, step) && Builds(s) == 0
    ensures Builds(Next(s, step)) == 0
  {
    hide Next;
    var t := Next(s, step);
    NoBuilder(s);
    forall p | p in t.ops
      ensures !IsBuilding(t.ops[p])
    {
      if p !in s.ops || t.ops[p] != s.ops[p] { StartShape(s, step, p); }
    }
    CountNone(t.ops, IsBuilding);
  }

  /** The weak handle `w` exists all along the run. */
  ghost predicate KeepsWeak(s: State, steps: seq<Step>, w: Handle)
    requires Runs(s, steps)
    decreases |steps|
  {
    w in s.weaks && (steps == [] || KeepsWeak(Next(s, steps[0]), steps[1..], w))
  }

  lemma {:induction false} ZeroIsFinalWhileSeen(s: State, steps: seq<Step>, w: Handle)
    requires Inv(s) && Runs(s, steps) && ZeroSeen(s, w) && KeepsWeak(s, steps, w)
    ensures Final(s, steps).strong == 0
    decreases |steps|
  {
    hide Inv, Enabled, Next, Builds;
    if steps != [] {
      var t := Next(s, steps[0]);
      StepKeepsInv(s, steps[0]);
      assert w in t.weaks by { assert KeepsWeak(t, steps[1..], w); }
      ZeroStays(s, steps[0], w);
      ZeroIsFinalWhileSeen(t, steps[1..], w);
    }
  }

  // -----------------------------------------------------------------------------------------
  // Exactly which zeros are permanent

  /** The count is zero and no run from here makes it anything else. */
  ghost predicate Permanent(s: State) {
    forall steps :: Runs(s, steps) ==> Final(s, steps).strong == 0
  }

  /** This operation has read a count above the limit: the next thing it does is abort the process. */
  predicate Aborting(op: Op) {
    op.Upgrading? && op.n > MAX_REFCOUNT
  }

  /** The operations that can still raise the count: a `make_mut` that has not seen a weak handle yet,
      or a `new_cyclic`, unless an `upgrade` that is about to abort stands in the way. */
  ghost predicate CanRaise(s: State, op: Op) {
    || op.Restoring? || op.Publishing?
    || (op.CheckingWeak? && forall p :: p in s.ops ==> !Aborting(s.ops[p]))
    || (op.Building? && forall p :: p in s.ops && Aborting(s.ops[p]) ==> s.ops[p].weak != op.weak)
  }

  ghost predicate Revivable(s: State) {
    exists o :: o in s.ops && CanRaise(s, s.ops[o])
  }

  /** A zero is permanent if and only if no operation that can still raise the count is in progress. */
  lemma ZeroIsPermanentIff(s: State)
    requires Reachable(s) && s.strong == 0
    ensures Permanent(s) <==> !Revivable(s)
  {
    ReachableInv(s);
    if Revivable(s) {
      var o :| o in s.ops && CanRaise(s, s.ops[o]);
      var steps := Revive(s, o);
    } else {
      forall steps | Runs(s, steps)
        ensures Final(s, steps).strong == 0
      {
        DeadRun(s, steps);
      }
    }
  }

  /** Without such an operation no step raises the count or starts one. */
  lemma DeadStep(s: State, step: Step)
    requires Inv(s) && s.strong == 0 && !Revivable(s) && Enabled(s, step)
    ensures Next(s, step).strong == 0 && !Revivable(Next(s, step))
  {
    hide Inv, Next;
    DeadCount(s, step);
    var t := Next(s, step);
    forall p | p in t.ops
      ensures !CanRaise(t, t.ops[p])
    {
      if p in s.ops && t.ops[p] == s.ops[p] {
        if q :| q in s.ops && Aborting(s.ops[q]) && (s.ops[p].Building? ==> s.ops[q].weak == s.ops[p].weak) {
          AbortingStays(s, step, q);
        }
      } else {
        NoneStarts(s, step, p);
      }
    }
  }

  lemma DeadCount(s: State, step: Step)
    requires Inv(s) && s.strong == 0 && !Revivable(s) && Enabled(s, step)
    ensures Next(s, step).strong == 0
  {
    hide Inv, Next;
    CountShape(s, step);
    ZeroUnused(s, step);
  }

  /** An operation that is about to abort takes no other step. */
  lemma AbortingStays(s: State, step: Step, q: OpId)
    requires Enabled(s, step) && q in s.ops && Aborting(s.ops[q])
    ensures q in Next(s, step).ops && Next(s, step).ops[q] == s.ops[q]
  {
    hide Next;
    OpsLocal(s, step, q);
  }

  /** A window that cannot be closed is left through `MovingOut`. */
  lemma MovesOn(s: State, o: OpId, q: OpId)
    requires Inv(s) && o in s.ops && s.ops[o].CheckingWeak? && q in s.ops && Aborting(s.ops[q])
    ensures Next(s, LoadWeak(o)).ops[o].MovingOut?
  {
  }

  lemma NoneStarts(s: State, step: Step, p: OpId)
    requires Inv(s) && s.strong == 0 && !Revivable(s) && Enabled(s, step)
    requires p in Next(s, step).ops && (p in s.ops ==> Next(s, step).ops[p] != s.ops[p])
    ensures !CanRaise(Next(s, step), Next(s, step).ops[p])
  {
    hide Inv, Next;
    StartShape(s, step, p);
    if step == LoadWeak(p) {
      var q :| q in s.ops && Aborting(s.ops[q]);
      MovesOn(s, p, q);
    } else if step == WriteData(p) {
      assert false;
    }
  }

  lemma {:induction false} DeadRun(s: State, steps: seq<Step>)
    requires Inv(s) && s.strong == 0 && !Revivable(s) && Runs(s, steps)
    ensures Final(s, steps).strong == 0
    decreases |steps|
  {
    hide Inv, Enabled, Next, Revivable;
    if steps != [] {
      StepKeepsInv(s, steps[0]);
      DeadStep(s, steps[0]);
      DeadRun(Next(s, steps[0]), steps[1..]);
    }
  }

  /** A number that is not in the set. */
  lemma Unnumbered(a: set<nat>) returns (n: nat)
    ensures n !in a
  {
    n := 0;
    var below: set<nat> := {};
    while n in a
      invariant below <= a && forall k: nat :: k in below <==> k < n
      decreases a - below
    {
      below, n := below + {n}, n + 1;
    }
  }

  /** An `upgrade` in progress can end at once while the count is zero. */
  lemma EndUpgrade(s: State, p: OpId) returns (steps: seq<Step>)
    requires p in s.ops && s.ops[p].Upgrading? && !Aborting(s.ops[p]) && s.strong == 0
    ensures Runs(s, steps) && Final(s, steps) == s.(ops := s.ops - {p})
  {
    var t := s;
    steps := [];
    if s.ops[p].n > 0 {
      var h' := Unnumbered(s.arcs + s.weaks);
      var step := UpgradeCas(p, h', true);
      RunOne(s, step);
      steps, t := [step], Next(s, step);
    }
    RunOne(t, UpgradeNone(p));
    RunsAppend(s, steps, [UpgradeNone(p)]);
    steps := steps + [UpgradeNone(p)];
    assert t.ops - {p} == s.ops - {p};
  }

  lemma Revive(s: State, o: OpId) returns (steps: seq<Step>)
    requires Inv(s) && s.strong == 0 && o in s.ops && CanRaise(s, s.ops[o])
    ensures Runs(s, steps) && Final(s, steps).strong == 1
  {
    if s.ops[o].Restoring? {
      RunOne(s, Restore(o));
      steps := [Restore(o)];
    } else if s.ops[o].Publishing? {
      steps := RevivePublishing(s, o);
    } else if s.ops[o].CheckingWeak? {
      steps := ReviveWindow(s, o);
    } else {
      steps := ReviveBuilding(s, o);
    }
  }

  lemma RevivePublishing(s: State, o: OpId) returns (steps: seq<Step>)
    requires s.strong == 0 && o in s.ops && s.ops[o].Publishing?
    ensures Runs(s, steps) && Final(s, steps).strong == 1
  {
    var h' := Unnumbered(s.arcs + s.weaks);
    RunOne(s, Publish(o, h'));
    steps := [Publish(o, h')];
  }

  lemma BuildersAlone(s: State, o: OpId)
    requires o in s.ops && s.ops[o].Building?
    requires forall p :: p in s.ops && p != o ==> HandleOf(s.ops[p]) != Some(s.ops[o].weak)
    ensures Enabled(s, WriteData(o))
  {
  }

  lemma WriteAndPublish(s: State, o: OpId) returns (steps: seq<Step>)
    requires s.strong == 0 && Enabled(s, WriteData(o))
    ensures Runs(s, steps) && Final(s, steps).strong == 1
  {
    hide Runs, Final;
    RunOne(s, WriteData(o));
    var more := RevivePublishing(Next(s, WriteData(o)), o);
    RunsAppend(s, [WriteData(o)], more);
    steps := [WriteData(o)] + more;
  }

  /** The upgrades through the construction's own weak handle end, the value is written and published. */
  lemma {:induction false} ReviveBuilding(s: State, o: OpId) returns (steps: seq<Step>)
    requires Inv(s) && s.strong == 0 && o in s.ops && s.ops[o].Building? && CanRaise(s, s.ops[o])
    ensures Runs(s, steps) && Final(s, steps).strong == 1
    decreases |s.ops|
  {
    hide Inv, Enabled, Next, Runs, Final;
    if p :| p in s.ops && p != o && HandleOf(s.ops[p]) == Some(s.ops[o].weak) {
      BuildersUsers(s, o, p);
      steps := EndUpgrade(s, p);
      var t := s.(ops := s.ops - {p});
      RunKeepsInv(s, steps);
      FewerOps(s.ops, p);
      var more := ReviveBuilding(t, o);
      RunsAppend(s, steps, more);
      steps := steps + more;
    } else {
      assert Enabled(s, WriteData(o)) by { BuildersAlone(s, o); }
      steps := WriteAndPublish(s, o);
    }
  }

  lemma FewerOps(m: map<OpId, Op>, p: OpId)
    requires p in m
    ensures |m - {p}| < |m|
  {
  }

  lemma BuildersUsers(s: State, o: OpId, p: OpId)
    requires Inv(s) && o in s.ops && s.ops[o].Building? && p in s.ops && p != o
    requires HandleOf(s.ops[p]) == Some(s.ops[o].weak)
    ensures s.ops[p].Upgrading?
  {
    if IsBuilding(s.ops[p]) {
      CountOne(s.ops, IsBuilding, o, p);
    }
  }

  /** The upgrades end, the weak handles are dropped, and the window finds none. */
  lemma {:induction false} ReviveWindow(s: State, o: OpId) returns (steps: seq<Step>)
    requires Inv(s) && s.strong == 0 && o in s.ops && s.ops[o].CheckingWeak? && CanRaise(s, s.ops[o])
    ensures Runs(s, steps) && Final(s, steps).strong == 1
    decreases |s.ops| + |s.weaks|
  {
    hide Inv, Enabled, Next, Runs, Final;
    if p :| p in s.ops && s.ops[p].Upgrading? {
      steps := EndUpgrade(s, p);
      var t := s.(ops := s.ops - {p});
      RunKeepsInv(s, steps);
      FewerOps(s.ops, p);
      var more := ReviveWindow(t, o);
      RunsAppend(s, steps, more);
      steps := steps + more;
    } else if w :| w in s.weaks {
      var step := DropOne(s, o, w);
      var t := Next(s, step);
      RunOne(s, step);
      StepKeepsInv(s, step);
      var more := ReviveWindow(t, o);
      RunsAppend(s, [step], more);
      steps := [step] + more;
    } else {
      steps := CloseUnseen(s, o);
    }
  }

  /** Inside the window an idle weak handle can be dropped, and never is the last reference. */
  lemma DropOne(s: State, o: OpId, w: Handle) returns (step: Step)
    requires Inv(s) && o in s.ops && s.ops[o].CheckingWeak? && w in s.weaks
    requires forall p :: p in s.ops ==> !s.ops[p].Upgrading?
    ensures Enabled(s, step)
    ensures Next(s, step) == s.(weak := s.weak - 1, weaks := s.weaks - {w})
    ensures |s.weaks - {w}| < |s.weaks|
  {
    var q := Unnumbered(s.ops.Keys);
    step := DropWeak(w, q);
    InClass(s, o);
    forall p | p in s.ops
      ensures HandleOf(s.ops[p]) != Some(w)
    {
      InClass(s, p);
    }
    assert s.ops - {q} == s.ops;
  }

  lemma CloseUnseen(s: State, o: OpId) returns (steps: seq<Step>)
    requires Inv(s) && o in s.ops && s.ops[o].CheckingWeak? && s.weaks == {}
    ensures Runs(s, steps) && Final(s, steps).strong == 1
  {
    InClass(s, o);
    NotLocked(s, o);
    var t := Next(s, LoadWeak(o));
    RunOne(s, LoadWeak(o));
    RunOne(t, Restore(o));
    RunsAppend(s, [LoadWeak(o)], [Restore(o)]);
    steps := [LoadWeak(o)] + [Restore(o)];
  }
}
