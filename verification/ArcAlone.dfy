/** The sequential meaning of `Arc` and `Weak`.  A block with nothing in progress is fully described
    by its two sets of handles; every call that nobody interferes with does to these sets what the
    documentation says, whatever the counters and locks do in between. */
module ArcAlone {
  import opened Counting
  import opened ArcProtocol
  import opened ArcZero
  import opened ArcCalls

  /** Nothing is in progress. */
  ghost predicate Quiet(s: State) {
    Reachable(s) && s.ops == map[]
  }

  /** The handles determine everything else about a quiet block. */
  lemma QuietState(s: State)
    requires Quiet(s)
    ensures s.strong == |s.arcs| && s.weak == |s.weaks| + if s.arcs == {} then 0 else 1
    ensures s.data == Live <==> s.arcs != {}
    ensures s.freed == 1 <==> s.arcs == {} && s.weaks == {}
    ensures s.arcs !! s.weaks
  {
    ReachableInv(s);
    NoOps(s);
  }

  datatype Call =
    | CloneArc(h: Handle, h': Handle)
    | DropStrong(h: Handle)
    | Downgrade(h: Handle, h': Handle)
    | Unwrap(h: Handle)
    | GetMut(h: Handle)
    | MakeUnique(h: Handle)
    | CloneWeakly(h: Handle, h': Handle)
    | DropWeakly(h: Handle)
    | Upgrade(h: Handle, h': Handle)

  datatype Handles = Handles(arcs: set<Handle>, weaks: set<Handle>)

  ghost function Of(s: State): Handles {
    Handles(s.arcs, s.weaks)
  }

  /** The caller has the handle, its new handle is new, and no count is at its limit. */
  ghost predicate Allowed(s: State, call: Call) {
    && call.h in (if call.CloneWeakly? || call.DropWeakly? || call.Upgrade? then s.weaks else s.arcs)
    && (call.CloneArc? || call.Downgrade? || call.CloneWeakly? || call.Upgrade? ==> Fresh(s, call.h'))
    && |s.arcs| <= MAX_REFCOUNT && |s.weaks| < MAX_REFCOUNT
  }

  /** Whether the answer is positive: the value for `try_unwrap`, `&mut T` into this block for `get_mut`
      and `make_mut`, a strong handle for `upgrade`. */
  ghost predicate Grants(b: Handles, call: Call) {
    match call
    case Unwrap(h) => b.arcs == {h}
    case GetMut(h) => b.arcs == {h} && b.weaks == {}
    case MakeUnique(h) => b.arcs == {h} && b.weaks == {}
    case Upgrade(_, _) => b.arcs != {}
    case _ => true
  }

  /** What a call does to the handles of this block.  A `make_mut` that is not granted takes its handle
      to a new block. */
  ghost function Meaning(b: Handles, call: Call): Handles {
    match call
    case CloneArc(_, h') => b.(arcs := b.arcs + {h'})
    case DropStrong(h) => b.(arcs := b.arcs - {h})
    case Downgrade(_, h') => b.(weaks := b.weaks + {h'})
    case Unwrap(h) => if Grants(b, call) then b.(arcs := {}) else b
    case GetMut(_) => b
    case MakeUnique(h) => if Grants(b, call) then b else b.(arcs := b.arcs - {h})
    case CloneWeakly(_, h') => b.(weaks := b.weaks + {h'})
    case DropWeakly(h) => b.(weaks := b.weaks - {h})
    case Upgrade(_, h') => if Grants(b, call) then b.(arcs := b.arcs + {h'}) else b
  }

  /** The steps run from `s` to a state without operations, with these handles. */
  ghost predicate Leads(s: State, steps: seq<Step>, b: Handles) {
    Runs(s, steps) && Final(s, steps).ops == map[] && Of(Final(s, steps)) == b
  }

  lemma LeadsOn(s: State, step: Step, more: seq<Step>, b: Handles)
    requires Enabled(s, step) && Leads(Next(s, step), more, b)
    ensures Leads(s, [step] + more, b)
  {
    hide Enabled, Next, Runs, Final;
    RunOne(s, step);
    RunsAppend(s, [step], more);
  }

  lemma LeadsNow(s: State)
    requires s.ops == map[]
    ensures Leads(s, [], Of(s))
  {
  }

  /** How operation 0 goes on once the last strong handle is gone. */
  function DisposeStep(op: Op): Step {
    if op.Destroying? then Destroy(0)
    else if op.Taking? then Take(0)
    else if op.Releasing? then Release(0)
    else Free(0)
  }

  /** What is left to do for an operation that disposes of something. */
  function Left(op: Op): nat {
    if IsLast(op) then 3 else if op.Releasing? then 2 else if op.Freeing? then 1 else 0
  }

  lemma DisposeOnce(s: State)
    requires s.ops.Keys == {0} && Left(s.ops[0]) > 0
    ensures var step := DisposeStep(s.ops[0]);
            && Enabled(s, step) && Of(Next(s, step)) == Of(s) && (step == Take(0) <==> s.ops[0] == Taking)
            && var ops := Next(s, step).ops;
               ops == map[] || (ops.Keys == {0} && ops[0] != Taking && 0 < Left(ops[0]) < Left(s.ops[0]))
  {
    assert s.ops - {0} == map[];
  }

  /** After the last strong handle: the value goes, then the implicit weak reference, then the block. */
  lemma {:induction false} Disposes(s: State) returns (steps: seq<Step>)
    requires Inv(s) && s.ops.Keys == {0} && Left(s.ops[0]) > 0
    ensures Leads(s, steps, Of(s)) && EndHold(0) !in steps
    ensures Take(0) in steps <==> s.ops[0] == Taking
    decreases Left(s.ops[0])
  {
    hide Inv, Next, Enabled, Leads;
    DisposeOnce(s);
    var step := DisposeStep(s.ops[0]);
    var t := Next(s, step);
    StepKeepsInv(s, step);
    var more := [];
    if t.ops == map[] {
      LeadsNow(t);
    } else {
      more := Disposes(t);
    }
    LeadsOn(s, step, more, Of(s));
    steps := [step] + more;
  }

  lemma Starts(s: State, h: Handle)
    requires s.ops == map[]
    ensures h in s.arcs ==> Enabled(s, DropArc(h, 0)) && Enabled(s, TryUnwrap(h, 0)) && Enabled(s, MakeMut(h, 0))
    ensures h in s.weaks ==> Enabled(s, DropWeak(h, 0))
  {
  }

  lemma DropAlone(s: State, h: Handle) returns (steps: seq<Step>)
    requires Quiet(s) && h in s.arcs
    ensures Leads(s, steps, Of(s).(arcs := s.arcs - {h}))
  {
    hide Inv, Leads, Next, Enabled, Reachable;
    Starts(s, h);
    var step := DropArc(h, 0);
    var t := Next(s, step);
    ReachableInv(s);
    DropAnswer(s, h, 0);
    StepKeepsInv(s, step);
    var more := Rest(t);
    LeadsOn(s, step, more, Of(t));
    steps := [step] + more;
  }

  /** Goes on, if there is anything to go on with. */
  lemma Rest(s: State) returns (steps: seq<Step>)
    requires Inv(s) && (s.ops == map[] || (s.ops.Keys == {0} && Left(s.ops[0]) > 0))
    ensures Leads(s, steps, Of(s)) && EndHold(0) !in steps
    ensures Take(0) in steps <==> s.ops != map[] && s.ops[0] == Taking
  {
    if s.ops == map[] {
      LeadsNow(s);
      steps := [];
    } else {
      steps := Disposes(s);
    }
  }

  lemma DropWeakAlone(s: State, w: Handle) returns (steps: seq<Step>)
    requires Quiet(s) && w in s.weaks
    ensures Leads(s, steps, Of(s).(weaks := s.weaks - {w}))
  {
    hide Inv, Leads, Next, Enabled, Reachable;
    Starts(s, w);
    var step := DropWeak(w, 0);
    var t := Next(s, step);
    ReachableInv(s);
    DropWeakAnswer(s, w, 0);
    StepKeepsInv(s, step);
    var more := Rest(t);
    LeadsOn(s, step, more, Of(t));
    steps := [step] + more;
  }

  lemma UnwrapAlone(s: State, h: Handle) returns (steps: seq<Step>)
    requires Quiet(s) && h in s.arcs
    ensures Leads(s, steps, if s.arcs == {h} then Of(s).(arcs := {}) else Of(s))
    ensures Take(0) in steps <==> s.arcs == {h}
  {
    hide Inv, Leads, Next, Enabled, Reachable;
    Starts(s, h);
    var step := TryUnwrap(h, 0);
    var t := Next(s, step);
    ReachableInv(s);
    UnwrapAnswer(s, h, 0);
    StepKeepsInv(s, step);
    var more := Rest(t);
    LeadsOn(s, step, more, Of(t));
    steps := [step] + more;
  }

  lemma DowngradeAlone(s: State, h: Handle, h': Handle)
    requires Quiet(s) && h in s.arcs && Fresh(s, h') && |s.weaks| < MAX_REFCOUNT
    ensures Leads(s, [StartDowngrade(h, 0), DowngradeCas(0, h', false)], Of(s).(weaks := s.weaks + {h'}))
  {
    QuietState(s);
    hide Runs, Final, Reachable;
    RunOfTwo(s, StartDowngrade(h, 0), DowngradeCas(0, h', false));
    assert s.ops[0 := Downgrading(h, s.weak)] - {0} == map[];
  }

  lemma NoneAlone(s: State, w: Handle)
    requires s.ops == map[] && w in s.weaks && s.strong == 0
    ensures Leads(s, [StartUpgrade(w, 0), UpgradeNone(0)], Of(s))
  {
    hide Runs, Final;
    RunOfTwo(s, StartUpgrade(w, 0), UpgradeNone(0));
    assert s.ops[0 := Upgrading(w, 0)] - {0} == map[];
  }

  /** `get_mut` under its lock, up to the end of the access it grants. */
  lemma Unlocks(s: State) returns (steps: seq<Step>)
    requires Inv(s) && s.ops.Keys == {0} && (s.ops[0].Unlocking? || s.ops[0].Holding?)
    ensures Leads(s, steps, Of(s))
    ensures EndHold(0) in steps <==> s.ops[0].Holding? || s.ops[0].unique
    decreases s.ops[0].Unlocking?
  {
    hide Inv, Runs, Final;
    var step := if s.ops[0].Unlocking? then Unlock(0) else EndHold(0);
    var t := Next(s, step);
    StepKeepsInv(s, step);
    var more := [];
    if s.ops[0].Unlocking? && s.ops[0].unique {
      more := Unlocks(t);
    } else {
      LeadsNow(t);
    }
    hide Next, Leads;
    LeadsOn(s, step, more, Of(s));
    steps := [step] + more;
  }

  lemma Alone(s: State, t: State, step: Step)
    requires Reachable(s) && Enabled(s, step) && t == Next(s, step)
    ensures Reachable(t)
  {
    hide Enabled, Next;
    var s0, steps :| Init(s0) && Runs(s0, steps) && s == Final(s0, steps);
    hide Runs, Final, Init;
    RunOne(s, step);
    RunsAppend(s0, steps, [step]);
  }

  lemma LockAlone(s: State, h: Handle)
    requires Quiet(s) && h in s.arcs
    ensures var step := LockWeak(h, 0);
            && Enabled(s, step)
            && var t := Next(s, step);
               if s.weaks != {} then t == s else t.ops == map[0 := CheckingUnique(h)] && Of(t) == Of(s)
  {
    hide Reachable;
    NoOps(s);
    LockAnswer(s, h, 0);
  }

  lemma LoadAlone(s: State, h: Handle)
    requires Reachable(s) && s.ops == map[0 := CheckingUnique(h)]
    ensures Enabled(s, LoadStrong(0))
    ensures var t := Next(s, LoadStrong(0));
            t.ops == map[0 := Unlocking(h, s.arcs == {h})] && Of(t) == Of(s)
  {
    hide Reachable;
    LoadStrongAnswer(s, 0);
  }

  lemma GetMutAlone(s: State, h: Handle) returns (steps: seq<Step>)
    requires Quiet(s) && h in s.arcs
    ensures Leads(s, steps, Of(s))
    ensures EndHold(0) in steps <==> s.arcs == {h} && s.weaks == {}
  {
    hide Enabled, Next, Reachable, Leads;
    var lock, load := LockWeak(h, 0), LoadStrong(0);
    LockAlone(s, h);
    var t := Next(s, lock);
    if s.weaks != {} {
      LeadsNow(s);
      LeadsOn(s, lock, [], Of(s));
      return [lock] + [];
    }
    Alone(s, t, lock);
    LoadAlone(t, h);
    Alone(t, Next(t, load), load);
    ReachableInv(Next(t, load));
    var more := Unlocks(Next(t, load));
    LeadsOn(t, load, more, Of(s));
    LeadsOn(s, lock, [load] + more, Of(s));
    steps := [lock] + ([load] + more);
  }

  lemma LoadStarts(s: State, h: Handle)
    requires s.ops == map[0 := CheckingWeak(h)]
    ensures Enabled(s, LoadWeak(0))
  {
  }

  lemma LeaveWindow(s: State, h: Handle)
    requires s.ops == map[0 := Restoring(h)] || s.ops == map[0 := MovingOut(h)]
    ensures s.ops[0].Restoring? ==>
              && Enabled(s, Restore(0)) && Of(Next(s, Restore(0))) == Of(s)
              && Next(s, Restore(0)).ops == map[0 := Holding(h)]
    ensures s.ops[0].MovingOut? ==>
              && Enabled(s, MoveOut(0)) && Of(Next(s, MoveOut(0))) == Of(s).(arcs := s.arcs - {h})
              && Next(s, MoveOut(0)).ops == map[0 := Releasing]
  {
  }

  /** `make_mut` inside its window: the value stays if there is no weak handle, and moves otherwise. */
  lemma WindowAlone(s: State, h: Handle) returns (steps: seq<Step>)
    requires Reachable(s) && s.ops == map[0 := CheckingWeak(h)] && s.arcs == {h}
    ensures Leads(s, steps, if s.weaks == {} then Of(s) else Of(s).(arcs := {}))
    ensures EndHold(0) in steps <==> s.weaks == {}
  {
    hide Runs, Final, Reachable, Leads, Enabled, Next;
    var load := LoadWeak(0);
    assert Enabled(s, load) by { LoadStarts(s, h); }
    LoadWeakAnswer(s, 0);
    var t := Next(s, load);
    LeaveWindow(t, h);
    Alone(s, t, load);
    var step := if s.weaks == {} then Restore(0) else MoveOut(0);
    var u := Next(t, step);
    Alone(t, u, step);
    ReachableInv(u);
    var more := [];
    if s.weaks == {} { more := Unlocks(u); } else { more := Disposes(u); }
    LeadsOn(t, step, more, Of(u));
    LeadsOn(s, load, [step] + more, Of(u));
    steps := [load] + ([step] + more);
  }

  lemma CloneOutAlone(s: State, h: Handle) returns (steps: seq<Step>)
    requires Reachable(s) && s.ops == map[0 := CloningOut(h)] && h in s.arcs && s.arcs != {h} && s.strong == |s.arcs|
    ensures Leads(s, steps, Of(s).(arcs := s.arcs - {h}))
    ensures EndHold(0) !in steps
  {
    hide Runs, Final, Reachable, Leads;
    var t := Next(s, CloneOut(0));
    if |s.arcs| == 1 { OnlyMember(s.arcs, h); }
    assert t.ops == map[];
    LeadsNow(t);
    LeadsOn(s, CloneOut(0), [], Of(t));
    steps := [CloneOut(0)] + [];
  }

  lemma MakeUniqueAlone(s: State, h: Handle) returns (steps: seq<Step>)
    requires Quiet(s) && h in s.arcs
    ensures Leads(s, steps, Meaning(Of(s), MakeUnique(h)))
    ensures EndHold(0) in steps <==> s.arcs == {h} && s.weaks == {}
  {
    QuietState(s);
    MakeMutAnswer(s, h, 0);
    hide Runs, Final, Reachable, Leads;
    var step := MakeMut(h, 0);
    var t := Next(s, step);
    Alone(s, t, step);
    var more := [];
    if s.arcs == {h} { more := WindowAlone(t, h); } else { more := CloneOutAlone(t, h); }
    LeadsOn(s, step, more, Meaning(Of(s), MakeUnique(h)));
    steps := [step] + more;
  }

  /** Every call that nobody interferes with does what it means, and answers accordingly. */
  lemma CallAlone(s: State, call: Call) returns (steps: seq<Step>)
    requires Quiet(s) && Allowed(s, call)
    ensures Leads(s, steps, Meaning(Of(s), call))
    ensures call.Unwrap? ==> (Take(0) in steps <==> Grants(Of(s), call))
    ensures call.GetMut? || call.MakeUnique? ==> (EndHold(0) in steps <==> Grants(Of(s), call))
  {
    QuietState(s);
    hide Runs, Final, Reachable, Leads, Enabled, Next;
    match call
    case CloneArc(h, h') => steps := CloneAlone(s, Clone(h, h'));
    case CloneWeakly(h, h') => steps := CloneAlone(s, CloneWeak(h, h'));
    case DropStrong(h) => steps := DropAlone(s, h);
    case DropWeakly(h) => steps := DropWeakAlone(s, h);
    case Downgrade(h, h') =>
      DowngradeAlone(s, h, h');
      steps := [StartDowngrade(h, 0), DowngradeCas(0, h', false)];
    case Unwrap(h) => steps := UnwrapAlone(s, h);
    case GetMut(h) => steps := GetMutAlone(s, h);
    case MakeUnique(h) => steps := MakeUniqueAlone(s, h);
    case Upgrade(h, h') => steps := UpgradeEither(s, h, h');
  }

  lemma CloneAlone(s: State, step: Step) returns (steps: seq<Step>)
    requires Quiet(s) && (step.Clone? || step.CloneWeak?) && Fresh(s, step.h')
    requires if step.Clone? then step.h in s.arcs && s.strong <= MAX_REFCOUNT
             else step.h in s.weaks && s.weak <= MAX_REFCOUNT
    ensures Leads(s, steps, if step.Clone? then Of(s).(arcs := s.arcs + {step.h'})
                            else Of(s).(weaks := s.weaks + {step.h'}))
  {
    hide Runs, Final, Leads;
    LeadsNow(Next(s, step));
    LeadsOn(s, step, [], Of(Next(s, step)));
    steps := [step] + [];
  }

  lemma UpgradeEither(s: State, w: Handle, h': Handle) returns (steps: seq<Step>)
    requires Quiet(s) && w in s.weaks && Fresh(s, h') && s.strong <= MAX_REFCOUNT
    ensures Leads(s, steps, Meaning(Of(s), Upgrade(w, h')))
  {
    hide Runs, Final;
    QuietState(s);
    if s.arcs == {} {
      NoneAlone(s, w);
      steps := [StartUpgrade(w, 0), UpgradeNone(0)];
    } else {
      UpgradeAlone(s, w, 0, h');
      steps := [StartUpgrade(w, 0), UpgradeCas(0, h', false)];
    }
  }

  lemma Publishes(s: State, w: Handle, h': Handle)
    requires s.ops == map[0 := Publishing(w)] && Fresh(s, h')
    ensures Enabled(s, Publish(0, h'))
    ensures var t := Next(s, Publish(0, h'));
            t.ops == map[] && Of(t) == Handles(s.arcs + {h'}, s.weaks - {w}) && t.data == s.data
  {
  }

  lemma BuildSteps(s: State, w: Handle)
    requires s.ops == map[0 := Building(w)]
    ensures Enabled(s, WriteData(0)) && Enabled(s, BuildPanics(0))
    ensures Next(s, WriteData(0)) == s.(data := Live, ops := map[0 := Publishing(w)])
    ensures Next(s, BuildPanics(0)) == s.(ops := map[])
  {
    assert s.ops - {0} == map[];
  }

  /** `new_cyclic` ends with one strong handle to its value, besides the weak handles its closure has
      made; if the closure panics, its own weak handle is left, to be dropped like any other. */
  lemma NewCyclicAlone(s: State, w: Handle, h': Handle)
    requires s.ops == map[0 := Building(w)] && Fresh(s, h')
    ensures Leads(s, [WriteData(0), Publish(0, h')], Handles(s.arcs + {h'}, s.weaks - {w}))
    ensures Final(s, [WriteData(0), Publish(0, h')]).data == Live
    ensures Leads(s, [BuildPanics(0)], Of(s))
  {
    hide Enabled, Next, Runs, Final;
    BuildSteps(s, w);
    var t := Next(s, WriteData(0));
    Publishes(t, w, h');
    RunOfTwo(s, WriteData(0), Publish(0, h'));
    RunOne(s, BuildPanics(0));
  }
}
