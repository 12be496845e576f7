/** What the calls of `Arc` and `Weak` answer, stated without counters: what each answer says about
    the handles in every interleaving, and what every call does when nobody interferes. */
module ArcCalls {
  import opened Words
  import opened Wrappers
  import opened Counting
  import opened ArcProtocol
  import opened ArcZero

  // -----------------------------------------------------------------------------------------
  // What `None` from `upgrade` means

  /** The state before step `k` of a run. */
  ghost function At(s: State, steps: seq<Step>, k: nat): State
    requires Runs(s, steps) && k <= |steps|
    decreases k
  {
    if k == 0 then s else At(Next(s, steps[0]), steps[1..], k - 1)
  }

  /** The steps in which the `upgrade` of `o` reads the strong count. */
  predicate Loads(step: Step, o: OpId) {
    (step.StartUpgrade? || step.UpgradeCas?) && step.o == o
  }

  /** From state `k` of the run on, operation `o` is `op`. */
  ghost predicate Steady(s: State, steps: seq<Step>, o: OpId, op: Op, k: nat)
    requires Runs(s, steps)
  {
    forall j :: k <= j <= |steps| ==> o in At(s, steps, j).ops && At(s, steps, j).ops[o] == op
  }

  lemma LoadedNow(s: State, step: Step, o: OpId)
    requires Enabled(s, step) && o in Next(s, step).ops && Next(s, step).ops[o].Upgrading?
    requires o in s.ops ==> s.ops[o] != Next(s, step).ops[o]
    ensures Loads(step, o) && s.strong == Next(s, step).ops[o].n
    ensures step.StartUpgrade? ==> Next(s, step).ops[o].weak == step.h && step.h in s.weaks
    ensures step.UpgradeCas? ==> o in s.ops && s.ops[o].Upgrading? && s.ops[o].weak == Next(s, step).ops[o].weak
  {
    if step.Clone? || step.CloneWeak? || step.o != o {
      hide Enabled, Next;
      OpsLocal(s, step, o);
    } else {
      LoadShape(s, step);
      hide Enabled;
    }
  }

  lemma LoadShape(s: State, step: Step)
    requires Enabled(s, step) && !step.Clone? && !step.CloneWeak?
    requires step.o in Next(s, step).ops && Next(s, step).ops[step.o].Upgrading?
    ensures step.UpgradeCas? ==> step.o in s.ops && s.ops[step.o].Upgrading?
    ensures step.StartUpgrade? ==> step.h in s.weaks
    ensures step.StartUpgrade? || step.UpgradeCas? || (step.o in s.ops && s.ops[step.o] == Next(s, step).ops[step.o])
  {
  }

  lemma SteadyMore(s: State, steps: seq<Step>, o: OpId, op: Op, k: nat)
    requires steps != [] && Runs(s, steps) && Steady(Next(s, steps[0]), steps[1..], o, op, k)
    ensures Steady(s, steps, o, op, k + 1)
  {
    hide Enabled, Next;
    forall j | k + 1 <= j <= |steps|
      ensures o in At(s, steps, j).ops && At(s, steps, j).ops[o] == op
    {
      assert At(s, steps, j) == At(Next(s, steps[0]), steps[1..], j - 1);
    }
  }

  lemma SteadyLess(s: State, steps: seq<Step>, o: OpId, op: Op, k: nat)
    requires steps != [] && Runs(s, steps) && Steady(s, steps, o, op, k)
    ensures Steady(Next(s, steps[0]), steps[1..], o, op, if k == 0 then 0 else k - 1)
  {
    hide Enabled, Next;
    forall j | (if k == 0 then 0 else k - 1) <= j <= |steps| - 1
      ensures o in At(Next(s, steps[0]), steps[1..], j).ops && At(Next(s, steps[0]), steps[1..], j).ops[o] == op
    {
      assert At(s, steps, j + 1) == At(Next(s, steps[0]), steps[1..], j);
    }
  }

  lemma SteadyNow(s: State, steps: seq<Step>, o: OpId, op: Op)
    requires Runs(s, steps) && Steady(s, steps, o, op, 0)
    ensures o in s.ops && s.ops[o] == op
  {
    assert At(s, steps, 0) == s;
  }

  /** The value that an `upgrade` goes by is what it read in its last load, unless that was before the
      run. */
  lemma {:induction false} LastLoad(s: State, steps: seq<Step>, o: OpId) returns (k: Option<nat>)
    requires Runs(s, steps) && o in Final(s, steps).ops && Final(s, steps).ops[o].Upgrading?
    ensures var op := Final(s, steps).ops[o];
            && (k.None? ==> Steady(s, steps, o, op, 0))
            && (k.Some? ==>
                  && k.value < |steps| && Loads(steps[k.value], o) && At(s, steps, k.value).strong == op.n
                  && Steady(s, steps, o, op, k.value + 1))
    decreases |steps|
  {
    hide Enabled, Next;
    if steps == [] {
      return None;
    }
    var op, t := Final(s, steps).ops[o], Next(s, steps[0]);
    var q := LastLoad(t, steps[1..], o);
    SteadyMore(s, steps, o, op, if q.Some? then q.value + 1 else 0);
    if q.Some? {
      k := Some(q.value + 1);
    } else if o in s.ops && s.ops[o] == op {
      k := None;
    } else {
      assert At(t, steps[1..], 0) == t;
      LoadedNow(s, steps[0], o);
      k := Some(0);
    }
  }

  lemma {:induction false} AtStep(s: State, steps: seq<Step>, k: nat)
    requires Inv(s) && Runs(s, steps) && k < |steps|
    ensures Inv(At(s, steps, k)) && Enabled(At(s, steps, k), steps[k])
    ensures At(s, steps, k + 1) == Next(At(s, steps, k), steps[k])
    decreases k
  {
    hide Inv, Enabled, Next;
    if k == 0 {
      assert At(s, steps, 1) == At(Next(s, steps[0]), steps[1..], 0);
    } else {
      StepKeepsInv(s, steps[0]);
      AtStep(Next(s, steps[0]), steps[1..], k - 1);
    }
  }

  lemma UpgradesOn(s: State, o: OpId)
    requires Inv(s) && o in s.ops && s.ops[o].Upgrading?
    ensures s.ops[o].weak in s.weaks
  {
    WeakOf(s, o);
  }

  /** A zero that an `upgrade` has read lasts as long as the `upgrade`. */
  lemma {:induction false} ZeroLasts(s: State, steps: seq<Step>, o: OpId, op: Op, k: nat)
    requires Inv(s) && Runs(s, steps) && k <= |steps| && op.Upgrading? && Steady(s, steps, o, op, k)
    requires ZeroSeen(At(s, steps, k), op.weak)
    ensures Final(s, steps).strong == 0
    decreases |steps|
  {
    hide Inv, Enabled, Next, Builds, Steady;
    if steps != [] {
      var t := Next(s, steps[0]);
      StepKeepsInv(s, steps[0]);
      SteadyLess(s, steps, o, op, k);
      if k == 0 {
        SteadyNow(t, steps[1..], o, op);
        UpgradesOn(t, o);
        ZeroStays(s, steps[0], op.weak);
        ZeroLasts(t, steps[1..], o, op, 0);
      } else {
        ZeroLasts(t, steps[1..], o, op, k - 1);
      }
    }
  }

  /** An `upgrade` that started in this run and can return `None` now: it read a strong count of zero in
      its last load, and unless a `new_cyclic` was in progress then, the count is still zero. */
  lemma NoneMeansZero(s: State, steps: seq<Step>, o: OpId) returns (k: nat)
    requires Reachable(s) && o !in s.ops && Runs(s, steps) && Enabled(Final(s, steps), UpgradeNone(o))
    ensures k < |steps| && Loads(steps[k], o) && At(s, steps, k).strong == 0
    ensures Steady(s, steps, o, Final(s, steps).ops[o], k + 1)
    ensures Builds(At(s, steps, k)) == 0 ==> Final(s, steps).strong == 0
  {
    hide Inv, Next, Builds, Steady, Runs, Final, At;
    ReachableInv(s);
    var op := Final(s, steps).ops[o];
    var q := LastLoad(s, steps, o);
    if q.None? { SteadyNow(s, steps, o, op); }
    k := q.value;
    if Builds(At(s, steps, k)) == 0 {
      ZeroRead(s, steps, o, op, k);
      ZeroLasts(s, steps, o, op, k + 1);
    }
  }

  lemma ZeroRead(s: State, steps: seq<Step>, o: OpId, op: Op, k: nat)
    requires Inv(s) && Runs(s, steps) && k < |steps| && op.Upgrading? && Steady(s, steps, o, op, k + 1)
    requires Loads(steps[k], o) && At(s, steps, k).strong == 0 && Builds(At(s, steps, k)) == 0
    ensures ZeroSeen(At(s, steps, k + 1), op.weak)
  {
    var a, b := At(s, steps, k), At(s, steps, k + 1);
    assert o in b.ops && b.ops[o] == op;
    hide Inv, Next, Builds, Runs, At;
    AtStep(s, steps, k);
    StepKeepsInv(a, steps[k]);
    UpgradesOn(b, o);
    LoadKeepsWeaks(a, steps[k], o);
    ZeroStays(a, steps[k], op.weak);
  }

  lemma LoadKeepsWeaks(s: State, step: Step, o: OpId)
    requires Enabled(s, step) && Loads(step, o) && o in Next(s, step).ops
    ensures Next(s, step).weaks == s.weaks
  {
  }

  lemma UpgradeStarts(s: State, w: Handle, o: OpId)
    requires w in s.weaks && Sharable(s, w) && o !in s.ops
    ensures Enabled(s, StartUpgrade(w, o))
    ensures Next(s, StartUpgrade(w, o)) == s.(ops := s.ops[o := Upgrading(w, s.strong)])
  {
  }

  lemma UpgradeEnds(s: State, o: OpId, h': Handle)
    requires o in s.ops && s.ops[o].Upgrading? && 0 < s.ops[o].n == s.strong <= MAX_REFCOUNT && Fresh(s, h')
    ensures Enabled(s, UpgradeCas(o, h', false))
    ensures Next(s, UpgradeCas(o, h', false)) ==
            s.(strong := s.strong + 1, arcs := s.arcs + {h'}, ops := s.ops - {o})
  {
  }

  /** With a strong handle around, an `upgrade` that nobody interferes with succeeds. */
  lemma UpgradeAlone(s: State, w: Handle, o: OpId, h': Handle)
    requires 0 < s.strong <= MAX_REFCOUNT && w in s.weaks && Sharable(s, w) && o !in s.ops && Fresh(s, h')
    ensures var steps := [StartUpgrade(w, o), UpgradeCas(o, h', false)];
            && Runs(s, steps)
            && Final(s, steps) == s.(strong := s.strong + 1, arcs := s.arcs + {h'})
  {
    hide Runs, Final, Enabled, Next;
    UpgradeStarts(s, w, o);
    UpgradeEnds(s.(ops := s.ops[o := Upgrading(w, s.strong)]), o, h');
    RunOfTwo(s, StartUpgrade(w, o), UpgradeCas(o, h', false));
    assert s.ops[o := Upgrading(w, s.strong)] - {o} == s.ops;
  }

  // -----------------------------------------------------------------------------------------
  // What the other answers mean, at the moment they are decided

  lemma SoleStrong(s: State, h: Handle)
    requires Inv(s) && h in s.arcs && Unused(s, h)
    ensures s.strong == |s.arcs| && (s.strong == 1 <==> s.arcs == {h})
  {
    hide Locks, Windows, Lasts, Releases, Frees, Builds, Borrowed, Exclusive, Tracked;
    NoWindow(s, h, {});
    if s.strong == 1 { OnlyMember(s.arcs, h); }
  }

  /** `try_unwrap` takes the value if and only if its handle is the only strong one; otherwise nothing
      happens. */
  lemma UnwrapAnswer(s: State, h: Handle, o: OpId)
    requires Reachable(s) && Enabled(s, TryUnwrap(h, o))
    ensures var t := Next(s, TryUnwrap(h, o));
            t == if s.arcs == {h} then s.(strong := 0, arcs := {}, ops := s.ops[o := Taking]) else s
  {
    ReachableInv(s);
    hide Inv;
    SoleStrong(s, h);
  }

  /** `drop` goes on to destroy the value if and only if its handle is the only strong one. */
  lemma DropAnswer(s: State, h: Handle, o: OpId)
    requires Reachable(s) && Enabled(s, DropArc(h, o))
    ensures var t := Next(s, DropArc(h, o));
            && t.arcs == s.arcs - {h} && t.weaks == s.weaks
            && t.ops == if s.arcs == {h} then s.ops[o := Destroying] else s.ops
  {
    ReachableInv(s);
    hide Inv;
    SoleStrong(s, h);
    assert o !in s.ops && s.ops - {o} == s.ops;
  }

  /** `make_mut` clones the value if and only if there is another strong handle. */
  lemma MakeMutAnswer(s: State, h: Handle, o: OpId)
    requires Reachable(s) && Enabled(s, MakeMut(h, o))
    ensures Next(s, MakeMut(h, o)).ops == s.ops[o := if s.arcs == {h} then CheckingWeak(h) else CloningOut(h)]
    ensures Next(s, MakeMut(h, o)).arcs == s.arcs
  {
    ReachableInv(s);
    hide Inv;
    SoleStrong(s, h);
  }

  /** Otherwise it moves the value if and only if there is a weak handle. */
  lemma LoadWeakAnswer(s: State, o: OpId)
    requires Reachable(s) && Enabled(s, LoadWeak(o))
    ensures var h := s.ops[o].arc;
            Next(s, LoadWeak(o)) == s.(ops := s.ops[o := if s.weaks == {} then Restoring(h) else MovingOut(h)])
  {
    ReachableInv(s);
    hide Locks, Windows, Lasts, Releases, Frees, Builds, Borrowed, Exclusive, Tracked;
    NotLocked(s, o);
  }

  /** `get_mut` gives up at its lock if and only if there is a weak handle or somebody else has the
      lock; in both cases its handle is not alone. */
  lemma LockAnswer(s: State, h: Handle, o: OpId)
    requires Reachable(s) && Enabled(s, LockWeak(h, o))
    ensures var t := Next(s, LockWeak(h, o));
            if s.weaks == {} && Locks(s) == 0 then o in t.ops && t.ops[o] == CheckingUnique(h) && t.weak == USIZE_MAX
            else t == s && (s.weaks != {} || s.arcs != {h})
  {
    ReachableInv(s);
    hide Locks, Windows, Lasts, Releases, Frees, Builds, Borrowed, Exclusive, Tracked;
    OtherLock(s, h, {});
  }

  /** Under the lock it finds its handle unique if and only if that is the only strong one; weak ones
      there are none. */
  lemma LoadStrongAnswer(s: State, o: OpId)
    requires Reachable(s) && Enabled(s, LoadStrong(o))
    ensures s.weaks == {}
    ensures Next(s, LoadStrong(o)).ops[o] == Unlocking(s.ops[o].arc, s.arcs == {s.ops[o].arc})
  {
    ReachableInv(s);
    hide Locks, Windows, Lasts, Releases, Frees, Builds, Borrowed, Exclusive, Tracked;
    InClass(s, o);
    SoleUser(s, o);
    ArcOf(s, o);
    NoWindow(s, s.ops[o].arc, {o});
    if s.strong == 1 { OnlyMember(s.arcs, s.ops[o].arc); }
  }

  /** It hands out `&mut T` if and only if it found that. */
  lemma UnlockAnswer(s: State, o: OpId)
    requires Enabled(s, Unlock(o))
    ensures var t := Next(s, Unlock(o));
            if s.ops[o].unique then o in t.ops && t.ops[o] == Holding(s.ops[o].arc) else o !in t.ops
  {
  }

  lemma WeakCounted(s: State, w: Handle)
    requires Inv(s) && w in s.weaks
    ensures s.weak == 1 <==> s.weaks == {w} && Implicit(s) == 0
  {
    hide Locks, Windows, Lasts, Releases, Frees, Builds, Borrowed, Exclusive, Tracked, Implicit;
    if |s.weaks| == 1 { OnlyMember(s.weaks, w); }
  }

  /** The block is freed by whoever drops the last reference of any kind. */
  lemma DropWeakAnswer(s: State, w: Handle, o: OpId)
    requires Reachable(s) && Enabled(s, DropWeak(w, o))
    ensures var t := Next(s, DropWeak(w, o));
            && t.weaks == s.weaks - {w} && t.arcs == s.arcs
            && t.ops == if s.weaks == {w} && Implicit(s) == 0 then s.ops[o := Freeing] else s.ops
  {
    hide Inv, Reachable, Implicit;
    ReachableInv(s);
    WeakCounted(s, w);
    assert o !in s.ops && s.ops - {o} == s.ops;
  }

  /** A destructor that panics leaves the implicit weak reference behind, one that returns releases it. */
  lemma DestroyAnswer(s: State, o: OpId)
    requires o in s.ops && s.ops[o].Destroying?
    ensures Enabled(s, Destroy(o)) && Enabled(s, DestroyPanics(o))
    ensures var t := Next(s, Destroy(o));
            t == s.(data := Gone, destroyed := s.destroyed + 1, ops := s.ops[o := Releasing])
    ensures Next(s, DestroyPanics(o)) == Next(s, Destroy(o)).(ops := s.ops[o := Unwound])
  {
  }

  // -----------------------------------------------------------------------------------------
  // Nobody is kept waiting

  lemma CanShare(s: State, h: Handle, o: OpId, h': Handle)
    requires o !in s.ops && Fresh(s, h') && Sharable(s, h)
    ensures h in s.arcs ==>
              Enabled(s, StartDowngrade(h, o)) && (s.strong <= MAX_REFCOUNT ==> Enabled(s, Clone(h, h')))
    ensures h in s.weaks ==>
              Enabled(s, StartUpgrade(h, o)) && (s.weak <= MAX_REFCOUNT ==> Enabled(s, CloneWeak(h, h')))
  {
    hide Sharable;
  }

  lemma CanOwn(s: State, h: Handle, o: OpId)
    requires o !in s.ops && Unused(s, h)
    ensures h in s.arcs ==>
              && Enabled(s, DropArc(h, o)) && Enabled(s, TryUnwrap(h, o))
              && Enabled(s, LockWeak(h, o)) && Enabled(s, MakeMut(h, o))
    ensures h in s.weaks ==> Enabled(s, DropWeak(h, o))
  {
    hide Unused;
  }

  /** A call can start whenever the borrow rules allow it: shared access to a handle that nobody uses
      mutably, exclusive access to one that nobody uses at all.  No other operation stands in the way. */
  lemma CanStart(s: State, h: Handle, o: OpId, h': Handle)
    requires o !in s.ops && Fresh(s, h')
    ensures (forall p :: p in s.ops && HandleOf(s.ops[p]) == Some(h) ==> Shares(s.ops[p])) ==>
              && (h in s.arcs ==>
                    Enabled(s, StartDowngrade(h, o)) && (s.strong <= MAX_REFCOUNT ==> Enabled(s, Clone(h, h'))))
              && (h in s.weaks ==>
                    Enabled(s, StartUpgrade(h, o)) && (s.weak <= MAX_REFCOUNT ==> Enabled(s, CloneWeak(h, h'))))
    ensures (forall p :: p in s.ops ==> HandleOf(s.ops[p]) != Some(h)) ==>
              && (h in s.arcs ==>
                    && Enabled(s, DropArc(h, o)) && Enabled(s, TryUnwrap(h, o))
                    && Enabled(s, LockWeak(h, o)) && Enabled(s, MakeMut(h, o)))
              && (h in s.weaks ==> Enabled(s, DropWeak(h, o)))
  {
    hide Enabled;
    if Sharable(s, h) { CanShare(s, h, o, h'); }
    if Unused(s, h) { CanOwn(s, h, o); }
  }

  /** Steps of destructors, clones and constructors that panic. */
  predicate IsPanic(step: Step) {
    step.DestroyPanics? || step.CloneOutPanics? || step.BuildPanics?
  }

  /** Every operation in progress can go on without waiting for another one, except a `downgrade` at the
      limit of the weak count, an `upgrade` that is about to abort the process, a reference left behind
      by a panic, and a `new_cyclic` whose closure is still using the weak handle. */
  lemma CanGoOn(s: State, o: OpId) returns (step: Step)
    requires o in s.ops && !s.ops[o].Unwound? && !Aborting(s.ops[o])
    requires s.ops[o].Downgrading? ==> s.ops[o].cur == USIZE_MAX || s.weak <= MAX_REFCOUNT
    requires s.ops[o].Building? ==> forall p :: p in s.ops && p != o ==> HandleOf(s.ops[p]) != Some(s.ops[o].weak)
    ensures Enabled(s, step) && !step.Clone? && !step.CloneWeak? && step.o == o && !IsPanic(step)
  {
    var h' := Unnumbered(s.arcs + s.weaks);
    match s.ops[o]
    case Downgrading(_, cur) => step := if cur == USIZE_MAX then DowngradeSpin(o) else DowngradeCas(o, h', false);
    case Upgrading(_, n) => step := if n == 0 then UpgradeNone(o) else UpgradeCas(o, h', false);
    case Building(_) => step := WriteData(o);
    case Publishing(_) => step := Publish(o, h');
    case CheckingUnique(_) => step := LoadStrong(o);
    case Unlocking(_, _) => step := Unlock(o);
    case Holding(_) => step := EndHold(o);
    case CloningOut(_) => step := CloneOut(o);
    case CheckingWeak(_) => step := LoadWeak(o);
    case MovingOut(_) => step := MoveOut(o);
    case Restoring(_) => step := Restore(o);
    case Destroying => step := Destroy(o);
    case Taking => step := Take(o);
    case Releasing => step := Release(o);
    case Freeing => step := Free(o);
  }
}
