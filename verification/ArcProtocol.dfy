/** The `Arc`/`Weak` protocol on one shared block, as a transition system.

    Any number of threads work on any number of handles.  Each atomic access to `strong` or `weak` is
    one step, and steps of different operations interleave freely.  An operation in progress is an
    entry of `ops`; a thread that is inside several operations owns several entries.  The counters are
    machine words: additions and subtractions wrap, and nothing in the steps guards against it. */
module ArcProtocol {
  import opened Words
  import opened Wrappers
  import opened Counting

  /** Beyond this count the increments abort the process. */
  const MAX_REFCOUNT: nat := ISIZE_MAX

  type Handle = nat
  type OpId = nat

  /** The value in the block: not written yet, in place, or destroyed or moved out. */
  datatype Data = Uninit | Live | Gone

  /** An operation between two of its atomic accesses. */
  datatype Op =
    | Downgrading(arc: Handle, cur: nat)          // `downgrade`, before its compare-exchange
    | Upgrading(weak: Handle, n: nat)             // `upgrade`, before its compare-exchange
    | Building(weak: Handle)                      // `new_cyclic`, while `data_fn` runs
    | Publishing(weak: Handle)                    // `new_cyclic`, value written
    | CheckingUnique(arc: Handle)                 // `is_unique`, weak count locked
    | Unlocking(arc: Handle, unique: bool)        // `is_unique`, strong count read
    | Holding(arc: Handle)                        // the caller holds the `&mut T` it was given
    | CloningOut(arc: Handle)                     // `make_mut`, another strong handle was seen
    | CheckingWeak(arc: Handle)                   // `make_mut`, strong count taken from 1 to 0
    | MovingOut(arc: Handle)                      // `make_mut`, weak handles were seen
    | Restoring(arc: Handle)                      // `make_mut`, no weak handle was seen
    | Destroying                                  // `drop_slow`, before `drop_in_place`
    | Taking                                      // `try_unwrap`, before `ptr::read`
    | Releasing                                   // before the implicit weak reference is dropped
    | Unwound                                     // the destructor panicked: that reference stays for good
    | Freeing                                     // before `deallocate`

  /** `destroyed` and `freed` count how often the value and the block have been disposed of. */
  datatype State = State(
    strong: nat, weak: nat, data: Data, destroyed: nat, freed: nat,
    arcs: set<Handle>, weaks: set<Handle>, ops: map<OpId, Op>)

  datatype Step =
    | Clone(h: Handle, h': Handle)
    | DropArc(h: Handle, o: OpId)
    | StartDowngrade(h: Handle, o: OpId)
    | DowngradeSpin(o: OpId)
    | DowngradeCas(o: OpId, h': Handle, spurious: bool)
    | TryUnwrap(h: Handle, o: OpId)
    | LockWeak(h: Handle, o: OpId)
    | LoadStrong(o: OpId)
    | Unlock(o: OpId)
    | EndHold(o: OpId)
    | MakeMut(h: Handle, o: OpId)
    | CloneOut(o: OpId)
    | CloneOutPanics(o: OpId)
    | LoadWeak(o: OpId)
    | MoveOut(o: OpId)
    | Restore(o: OpId)
    | Destroy(o: OpId)
    | DestroyPanics(o: OpId)
    | Take(o: OpId)
    | Release(o: OpId)
    | Free(o: OpId)
    | CloneWeak(h: Handle, h': Handle)
    | DropWeak(h: Handle, o: OpId)
    | StartUpgrade(h: Handle, o: OpId)
    | UpgradeCas(o: OpId, h': Handle, spurious: bool)
    | UpgradeNone(o: OpId)
    | WriteData(o: OpId)
    | BuildPanics(o: OpId)
    | Publish(o: OpId, h': Handle)

  // -----------------------------------------------------------------------------------------
  // Borrowing, as the type system enforces it

  function HandleOf(op: Op): Option<Handle> {
    match op
    case Downgrading(h, _) => Some(h)
    case Upgrading(h, _) => Some(h)
    case Building(h) => Some(h)
    case Publishing(h) => Some(h)
    case CheckingUnique(h) => Some(h)
    case Unlocking(h, _) => Some(h)
    case Holding(h) => Some(h)
    case CloningOut(h) => Some(h)
    case CheckingWeak(h) => Some(h)
    case MovingOut(h) => Some(h)
    case Restoring(h) => Some(h)
    case _ => None
  }

  /** Operations that only borrow their handle: others may borrow it at the same time. */
  predicate Shares(op: Op) {
    op.Downgrading? || op.Upgrading? || op.Building?
  }

  predicate OnWeak(op: Op) {
    op.Upgrading? || op.Building? || op.Publishing?
  }

  /** No operation uses `h`: it may be consumed or borrowed mutably. */
  ghost predicate Unused(s: State, h: Handle) {
    forall o :: o in s.ops ==> HandleOf(s.ops[o]) != Some(h)
  }

  /** No operation borrows `h` mutably: it may be borrowed once more. */
  ghost predicate Sharable(s: State, h: Handle) {
    forall o :: o in s.ops && HandleOf(s.ops[o]) == Some(h) ==> Shares(s.ops[o])
  }

  ghost predicate Fresh(s: State, h: Handle) {
    h !in s.arcs && h !in s.weaks
  }

  // -----------------------------------------------------------------------------------------
  // The steps

  function FetchAdd(x: nat): nat {
    if x == USIZE_MAX then 0 else x + 1
  }

  function FetchSub(x: nat): nat {
    if x == 0 then USIZE_MAX else x - 1
  }

  ghost predicate Enabled(s: State, step: Step) {
    match step
    case Clone(h, h') => h in s.arcs && Sharable(s, h) && Fresh(s, h') && s.strong <= MAX_REFCOUNT
    case DropArc(h, o) => h in s.arcs && Unused(s, h) && o !in s.ops
    case StartDowngrade(h, o) => h in s.arcs && Sharable(s, h) && o !in s.ops
    case DowngradeSpin(o) => o in s.ops && s.ops[o].Downgrading? && s.ops[o].cur == USIZE_MAX
    case DowngradeCas(o, h', _) =>
      && o in s.ops && s.ops[o].Downgrading? && s.ops[o].cur != USIZE_MAX && Fresh(s, h')
      && (s.weak == s.ops[o].cur ==> s.weak <= MAX_REFCOUNT)  // the overflow the source ignores
    case TryUnwrap(h, o) => h in s.arcs && Unused(s, h) && o !in s.ops
    case LockWeak(h, o) => h in s.arcs && Unused(s, h) && o !in s.ops
    case LoadStrong(o) => o in s.ops && s.ops[o].CheckingUnique?
    case Unlock(o) => o in s.ops && s.ops[o].Unlocking?
    case EndHold(o) => o in s.ops && s.ops[o].Holding?
    case MakeMut(h, o) => h in s.arcs && Unused(s, h) && o !in s.ops
    case CloneOut(o) => o in s.ops && s.ops[o].CloningOut?
    case CloneOutPanics(o) => o in s.ops && s.ops[o].CloningOut?
    case LoadWeak(o) => o in s.ops && s.ops[o].CheckingWeak?
    case MoveOut(o) => o in s.ops && s.ops[o].MovingOut?
    case Restore(o) => o in s.ops && s.ops[o].Restoring?
    case Destroy(o) => o in s.ops && s.ops[o].Destroying?
    case DestroyPanics(o) => o in s.ops && s.ops[o].Destroying?
    case Take(o) => o in s.ops && s.ops[o].Taking?
    case Release(o) => o in s.ops && s.ops[o].Releasing?
    case Free(o) => o in s.ops && s.ops[o].Freeing?
    case CloneWeak(h, h') => h in s.weaks && Sharable(s, h) && Fresh(s, h') && s.weak <= MAX_REFCOUNT
    case DropWeak(h, o) => h in s.weaks && Unused(s, h) && o !in s.ops
    case StartUpgrade(h, o) => h in s.weaks && Sharable(s, h) && o !in s.ops
    case UpgradeCas(o, h', _) =>
      o in s.ops && s.ops[o].Upgrading? && 0 < s.ops[o].n <= MAX_REFCOUNT && Fresh(s, h')
    case UpgradeNone(o) => o in s.ops && s.ops[o].Upgrading? && s.ops[o].n == 0
    case WriteData(o) =>
      && o in s.ops && s.ops[o].Building?
      && forall p :: p in s.ops && p != o ==> HandleOf(s.ops[p]) != Some(s.ops[o].weak)
    case BuildPanics(o) => o in s.ops && s.ops[o].Building?
    case Publish(o, h') => o in s.ops && s.ops[o].Publishing? && Fresh(s, h')
  }

  /** The last strong reference is gone: the operation goes on as `next`. */
  function AfterDrop(s: State, o: OpId, next: Op, was: nat): map<OpId, Op> {
    if was == 1 then s.ops[o := next] else s.ops - {o}
  }

  ghost function Next(s: State, step: Step): State
    requires Enabled(s, step)
  {
    match step
    case Clone(h, h') =>
      s.(strong := FetchAdd(s.strong), arcs := s.arcs + {h'})
    case DropArc(h, o) =>
      s.(strong := FetchSub(s.strong), arcs := s.arcs - {h}, ops := AfterDrop(s, o, Destroying, s.strong))
    case StartDowngrade(h, o) =>
      s.(ops := s.ops[o := Downgrading(h, s.weak)])
    case DowngradeSpin(o) =>
      s.(ops := s.ops[o := s.ops[o].(cur := s.weak)])
    case DowngradeCas(o, h', spurious) =>
      if s.weak == s.ops[o].cur && !spurious then
        s.(weak := FetchAdd(s.weak), weaks := s.weaks + {h'}, ops := s.ops - {o})
      else
        s.(ops := s.ops[o := s.ops[o].(cur := s.weak)])
    case TryUnwrap(h, o) =>
      if s.strong == 1 then s.(strong := 0, arcs := s.arcs - {h}, ops := s.ops[o := Taking]) else s
    case LockWeak(h, o) =>
      if s.weak == 1 then s.(weak := USIZE_MAX, ops := s.ops[o := CheckingUnique(h)]) else s
    case LoadStrong(o) =>
      s.(ops := s.ops[o := Unlocking(s.ops[o].arc, s.strong == 1)])
    case Unlock(o) =>
      s.(weak := 1, ops := if s.ops[o].unique then s.ops[o := Holding(s.ops[o].arc)] else s.ops - {o})
    case EndHold(o) =>
      s.(ops := s.ops - {o})
    case MakeMut(h, o) =>
      if s.strong == 1 then s.(strong := 0, ops := s.ops[o := CheckingWeak(h)])
      else s.(ops := s.ops[o := CloningOut(h)])
    case CloneOut(o) =>  // the handle now belongs to the new block; its old reference is dropped here
      s.(strong := FetchSub(s.strong), arcs := s.arcs - {s.ops[o].arc}, ops := AfterDrop(s, o, Destroying, s.strong))
    case CloneOutPanics(o) =>
      s.(ops := s.ops - {o})
    case LoadWeak(o) =>
      s.(ops := s.ops[o := if s.weak != 1 then MovingOut(s.ops[o].arc) else Restoring(s.ops[o].arc)])
    case MoveOut(o) =>  // the value and the handle move to a new block
      s.(data := Gone, destroyed := s.destroyed + 1, arcs := s.arcs - {s.ops[o].arc}, ops := s.ops[o := Releasing])
    case Restore(o) =>
      s.(strong := 1, ops := s.ops[o := Holding(s.ops[o].arc)])
    case Destroy(o) =>
      s.(data := Gone, destroyed := s.destroyed + 1, ops := s.ops[o := Releasing])
    case DestroyPanics(o) =>  // what the destructor has not dropped, the unwinding drops
      s.(data := Gone, destroyed := s.destroyed + 1, ops := s.ops[o := Unwound])
    case Take(o) =>
      s.(data := Gone, destroyed := s.destroyed + 1, ops := s.ops[o := Releasing])
    case Release(o) =>
      s.(weak := FetchSub(s.weak), ops := AfterDrop(s, o, Freeing, s.weak))
    case Free(o) =>
      s.(freed := s.freed + 1, ops := s.ops - {o})
    case CloneWeak(h, h') =>
      s.(weak := FetchAdd(s.weak), weaks := s.weaks + {h'})
    case DropWeak(h, o) =>
      s.(weak := FetchSub(s.weak), weaks := s.weaks - {h}, ops := AfterDrop(s, o, Freeing, s.weak))
    case StartUpgrade(h, o) =>
      s.(ops := s.ops[o := Upgrading(h, s.strong)])
    case UpgradeCas(o, h', spurious) =>
      if s.strong == s.ops[o].n && !spurious then
        s.(strong := FetchAdd(s.strong), arcs := s.arcs + {h'}, ops := s.ops - {o})
      else
        s.(ops := s.ops[o := s.ops[o].(n := s.strong)])
    case UpgradeNone(o) =>
      s.(ops := s.ops - {o})
    case WriteData(o) =>
      s.(data := Live, ops := s.ops[o := Publishing(s.ops[o].weak)])
    case BuildPanics(o) =>
      s.(ops := s.ops - {o})
    case Publish(o, h') =>
      s.(strong := FetchAdd(s.strong), arcs := s.arcs + {h'}, weaks := s.weaks - {s.ops[o].weak}, ops := s.ops - {o})
  }

  /** A block as `Arc::new` makes it: one strong handle.  In `make_mut` that handle is handed out
      mutably at once. */
  ghost function NewBlock(h: Handle, held: bool, o: OpId): State {
    State(1, 1, Live, 0, 0, {h}, {}, if held then map[o := Holding(h)] else map[])
  }

  /** A block as `Arc::new_cyclic` makes it: one weak handle and no value. */
  ghost function CyclicBlock(w: Handle, o: OpId): State {
    State(0, 1, Uninit, 0, 0, {}, {w}, map[o := Building(w)])
  }

  ghost predicate Init(s: State) {
    (exists h, held, o :: s == NewBlock(h, held, o)) || (exists w, o :: s == CyclicBlock(w, o))
  }

  /** Every step is taken when it is enabled. */
  ghost predicate Runs(s: State, steps: seq<Step>)
    decreases |steps|
  {
    steps == [] || (Enabled(s, steps[0]) && Runs(Next(s, steps[0]), steps[1..]))
  }

  ghost function Final(s: State, steps: seq<Step>): State
    requires Runs(s, steps)
    decreases |steps|
  {
    if steps == [] then s else Final(Next(s, steps[0]), steps[1..])
  }

  // -----------------------------------------------------------------------------------------
  // The invariant

  predicate IsLock(op: Op) { op.CheckingUnique? || op.Unlocking? }
  predicate IsWindow(op: Op) { op.CheckingWeak? || op.MovingOut? || op.Restoring? }
  predicate IsLast(op: Op) { op.Destroying? || op.Taking? }
  predicate IsReleasing(op: Op) { op.Releasing? || op.Unwound? }
  predicate IsFreeing(op: Op) { op.Freeing? }
  predicate IsBuilding(op: Op) { op.Building? || op.Publishing? }

  ghost function Locks(s: State): nat { Count(s.ops, IsLock) }
  ghost function Windows(s: State): nat { Count(s.ops, IsWindow) }
  ghost function Lasts(s: State): nat { Count(s.ops, IsLast) }
  ghost function Releases(s: State): nat { Count(s.ops, IsReleasing) }
  ghost function Frees(s: State): nat { Count(s.ops, IsFreeing) }
  ghost function Builds(s: State): nat { Count(s.ops, IsBuilding) }

  /** The weak reference that all strong handles hold together, until it has been released. */
  ghost function Implicit(s: State): nat {
    if s.arcs != {} || Lasts(s) + Releases(s) > 0 then 1 else 0
  }

  predicate Clash(a: Op, b: Op) {
    HandleOf(a).Some? && HandleOf(a) == HandleOf(b)
  }

  /** Operations use handles that exist, and respect each other's borrows. */
  ghost predicate Borrowed(s: State) {
    && s.arcs !! s.weaks
    && (forall o :: o in s.ops && HandleOf(s.ops[o]).Some? ==>
          HandleOf(s.ops[o]).value in (if OnWeak(s.ops[o]) then s.weaks else s.arcs))
    && (forall o, p :: o in s.ops && p in s.ops && o != p && Clash(s.ops[o], s.ops[p]) ==> Shares(s.ops[o]))
  }

  /** The strong count is the strong handles, the weak count the weak handles and the implicit one,
      except in the window of `make_mut` and under the lock of `is_unique`. */
  ghost predicate Counted(s: State) {
    && s.strong == |s.arcs| - Windows(s)
    && s.weak == (if Locks(s) > 0 then USIZE_MAX else |s.weaks| + Implicit(s))
    && s.strong <= MAX_REFCOUNT + 1 && |s.weaks| + Implicit(s) <= MAX_REFCOUNT + 1
  }

  /** Which operations may be in progress together. */
  ghost predicate Phased(s: State) {
    && Locks(s) <= 1 && (Locks(s) > 0 ==> s.arcs != {} && s.weaks == {})
    && Windows(s) <= 1 && (Windows(s) > 0 ==> |s.arcs| == 1)
    && Lasts(s) + Releases(s) <= 1 && (Lasts(s) + Releases(s) > 0 ==> s.arcs == {})
    && Builds(s) <= 1 && (Builds(s) > 0 ==> s.arcs == {} && Lasts(s) + Releases(s) == 0)
    && (Frees(s) + s.freed == if s.arcs == {} && s.weaks == {} && Lasts(s) + Releases(s) == 0 then 1 else 0)
  }

  /** The value exists while a strong handle does, and until the last one has disposed of it. */
  ghost predicate Tracked(s: State) {
    && (s.arcs != {} || Lasts(s) > 0 ==> s.data == Live)
    && (s.data == Live && Builds(s) == 0 ==> s.arcs != {} || Lasts(s) > 0)
    && s.destroyed == (if s.data == Gone then 1 else 0)
    && (Releases(s) > 0 ==> s.data == Gone)
    && (s.data == Gone ==> Builds(s) == 0)
    && (forall o :: o in s.ops && s.ops[o].Building? ==> s.data == Uninit)
    && (forall o :: o in s.ops && s.ops[o].Publishing? ==> s.data == Live)
  }

  /** Mutable access is exclusive, and the window of `make_mut` is closed only if it was unseen. */
  ghost predicate Exclusive(s: State) {
    && (forall o :: o in s.ops && s.ops[o].Unlocking? && s.ops[o].unique ==> |s.arcs| == 1)
    && (forall o :: o in s.ops && s.ops[o].Holding? ==> |s.arcs| == 1 && s.weaks == {})
    && (forall o :: o in s.ops && s.ops[o].Restoring? ==> s.weaks == {})
  }

  ghost predicate Inv(s: State) {
    Borrowed(s) && Counted(s) && Phased(s) && Tracked(s) && Exclusive(s)
  }

  // -----------------------------------------------------------------------------------------
  // Every step keeps the invariant

  ghost function One(b: bool): nat {
    if b then 1 else 0
  }

  lemma OpSet(s: State, t: State, o: OpId, op: Op)
    requires t.ops == s.ops[o := op]
    ensures Locks(t) == Locks(s) - One(o in s.ops && IsLock(s.ops[o])) + One(IsLock(op))
    ensures Windows(t) == Windows(s) - One(o in s.ops && IsWindow(s.ops[o])) + One(IsWindow(op))
    ensures Lasts(t) == Lasts(s) - One(o in s.ops && IsLast(s.ops[o])) + One(IsLast(op))
    ensures Releases(t) == Releases(s) - One(o in s.ops && IsReleasing(s.ops[o])) + One(IsReleasing(op))
    ensures Frees(t) == Frees(s) - One(o in s.ops && IsFreeing(s.ops[o])) + One(IsFreeing(op))
    ensures Builds(t) == Builds(s) - One(o in s.ops && IsBuilding(s.ops[o])) + One(IsBuilding(op))
  {
    CountUpdate(s.ops, o, op, IsLock);
    CountUpdate(s.ops, o, op, IsWindow);
    CountUpdate(s.ops, o, op, IsLast);
    CountUpdate(s.ops, o, op, IsReleasing);
    CountUpdate(s.ops, o, op, IsFreeing);
    CountUpdate(s.ops, o, op, IsBuilding);
  }

  lemma OpEnd(s: State, t: State, o: OpId)
    requires t.ops == s.ops - {o}
    ensures Locks(t) == Locks(s) - One(o in s.ops && IsLock(s.ops[o]))
    ensures Windows(t) == Windows(s) - One(o in s.ops && IsWindow(s.ops[o]))
    ensures Lasts(t) == Lasts(s) - One(o in s.ops && IsLast(s.ops[o]))
    ensures Releases(t) == Releases(s) - One(o in s.ops && IsReleasing(s.ops[o]))
    ensures Frees(t) == Frees(s) - One(o in s.ops && IsFreeing(s.ops[o]))
    ensures Builds(t) == Builds(s) - One(o in s.ops && IsBuilding(s.ops[o]))
  {
    CountRemove(s.ops, o, IsLock);
    CountRemove(s.ops, o, IsWindow);
    CountRemove(s.ops, o, IsLast);
    CountRemove(s.ops, o, IsReleasing);
    CountRemove(s.ops, o, IsFreeing);
    CountRemove(s.ops, o, IsBuilding);
  }

  /** An operation in progress is counted in its class. */
  lemma InClass(s: State, o: OpId)
    requires o in s.ops
    ensures IsLock(s.ops[o]) ==> Locks(s) > 0
    ensures IsWindow(s.ops[o]) ==> Windows(s) > 0
    ensures IsLast(s.ops[o]) ==> Lasts(s) > 0
    ensures IsReleasing(s.ops[o]) ==> Releases(s) > 0
    ensures IsFreeing(s.ops[o]) ==> Frees(s) > 0
    ensures IsBuilding(s.ops[o]) ==> Builds(s) > 0
  {
    if IsLock(s.ops[o]) { CountPositive(s.ops, o, IsLock); }
    if IsWindow(s.ops[o]) { CountPositive(s.ops, o, IsWindow); }
    if IsLast(s.ops[o]) { CountPositive(s.ops, o, IsLast); }
    if IsReleasing(s.ops[o]) { CountPositive(s.ops, o, IsReleasing); }
    if IsFreeing(s.ops[o]) { CountPositive(s.ops, o, IsFreeing); }
    if IsBuilding(s.ops[o]) { CountPositive(s.ops, o, IsBuilding); }
  }

  lemma OpSame(s: State, t: State)
    requires t.ops == s.ops
    ensures Locks(t) == Locks(s) && Windows(t) == Windows(s) && Lasts(t) == Lasts(s)
    ensures Releases(t) == Releases(s) && Frees(t) == Frees(s) && Builds(t) == Builds(s)
  {
  }

  /** Nobody but the operations in `mine` uses `h` mutably. */
  ghost predicate MineOnly(s: State, h: Handle, mine: set<OpId>) {
    forall p :: p in s.ops && p !in mine && HandleOf(s.ops[p]) == Some(h) ==> Shares(s.ops[p])
  }

  /** A handle that can be used is not the one inside another's `make_mut` window. */
  lemma NoWindow(s: State, h: Handle, mine: set<OpId>)
    requires Borrowed(s) && Phased(s) && h in s.arcs && MineOnly(s, h, mine)
    requires forall o :: o in mine && o in s.ops ==> !IsWindow(s.ops[o])
    ensures Windows(s) == 0
  {
    if Windows(s) > 0 {
      var p := CountWitness(s.ops, IsWindow);
      OnlyMember(s.arcs, h);
      assert false;
    }
  }

  /** If the weak count is locked, the handle of the locker is another one. */
  lemma OtherLock(s: State, h: Handle, mine: set<OpId>)
    requires Borrowed(s) && Phased(s) && h in s.arcs && MineOnly(s, h, mine)
    requires forall o :: o in mine && o in s.ops ==> !IsLock(s.ops[o])
    ensures Locks(s) > 0 ==> s.arcs - {h} != {}
  {
  }

  /** If there is one strong handle, the operations on it are mine or share it. */
  lemma SoleUsers(s: State, h: Handle, mine: set<OpId>)
    requires Borrowed(s) && h in s.arcs && MineOnly(s, h, mine) && |s.arcs| == 1
    ensures forall p :: p in s.ops && p !in mine && HandleOf(s.ops[p]).Some? && !OnWeak(s.ops[p]) ==> Shares(s.ops[p])
  {
    OnlyMember(s.arcs, h);
  }

  /** Whoever uses a handle mutably is its only user. */
  lemma SoleUser(s: State, o: OpId)
    requires Borrowed(s) && o in s.ops && HandleOf(s.ops[o]).Some? && !Shares(s.ops[o])
    ensures forall p :: p in s.ops && p != o ==> HandleOf(s.ops[p]) != HandleOf(s.ops[o])
  {
    assert forall p :: p in s.ops && p != o ==> !Clash(s.ops[o], s.ops[p]);
  }

  lemma ArcOf(s: State, o: OpId)
    requires Borrowed(s) && o in s.ops && HandleOf(s.ops[o]).Some? && !OnWeak(s.ops[o])
    ensures HandleOf(s.ops[o]).value in s.arcs
  {
  }

  lemma WeakOf(s: State, o: OpId)
    requires Borrowed(s) && o in s.ops && OnWeak(s.ops[o])
    ensures HandleOf(s.ops[o]).value in s.weaks
  {
  }

  /** Where one operation shares its handle all its users do. */
  lemma SharedUsers(s: State, o: OpId)
    requires Borrowed(s) && o in s.ops && s.ops[o].Downgrading?
    ensures s.ops[o].arc in s.arcs && MineOnly(s, s.ops[o].arc, {})
  {
    assert forall p :: p in s.ops && p != o && HandleOf(s.ops[p]) == HandleOf(s.ops[o]) ==> Clash(s.ops[p], s.ops[o]);
  }

  /** The weak count is not locked while a window is open: both need the one strong handle mutably. */
  lemma NotLocked(s: State, o: OpId)
    requires Borrowed(s) && Phased(s) && o in s.ops && IsWindow(s.ops[o])
    ensures Locks(s) == 0 && s.arcs == {HandleOf(s.ops[o]).value}
  {
    hide Locks, Windows, Lasts, Releases, Frees, Builds;
    InClass(s, o);
    OnlyMember(s.arcs, HandleOf(s.ops[o]).value);
    SoleUser(s, o);
    OtherLock(s, HandleOf(s.ops[o]).value, {o});
  }

  /** Without another user of the only strong handle, the others work on weak handles. */
  lemma OthersOnWeak(s: State, h: Handle, o: OpId)
    requires Borrowed(s) && s.arcs == {h}
    requires forall p :: p in s.ops && HandleOf(s.ops[p]) == Some(h) ==> p == o
    ensures forall p :: p in s.ops && p != o && HandleOf(s.ops[p]).Some? ==> OnWeak(s.ops[p])
  {
  }

  /** An operation starts on a handle that it may use. */
  lemma BorrowsStart(s: State, t: State, o: OpId, op: Op)
    requires Borrowed(s) && o !in s.ops && HandleOf(op).Some?
    requires t.arcs == s.arcs && t.weaks == s.weaks && t.ops == s.ops[o := op]
    requires HandleOf(op).value in (if OnWeak(op) then s.weaks else s.arcs)
    requires Sharable(s, HandleOf(op).value) && (Shares(op) || Unused(s, HandleOf(op).value))
    ensures Borrowed(t)
  {
  }

  /** An operation goes on with its handle. */
  lemma BorrowsNext(s: State, t: State, o: OpId, op: Op)
    requires Borrowed(s) && o in s.ops && HandleOf(op) == HandleOf(s.ops[o]) && OnWeak(op) == OnWeak(s.ops[o])
    requires t.arcs == s.arcs && t.weaks == s.weaks && t.ops == s.ops[o := op]
    requires || (Shares(s.ops[o]) ==> Shares(op))
             || forall p :: p in s.ops && p != o ==> HandleOf(s.ops[p]) != HandleOf(op)
    ensures Borrowed(t)
  {
  }

  /** Handles appear or, if nobody uses them any more, disappear; operations let go of theirs. */
  lemma BorrowsFewer(s: State, t: State)
    requires Borrowed(s) && t.arcs - s.arcs !! t.weaks && t.weaks - s.weaks !! t.arcs
    requires forall p :: p in t.ops ==> (p in s.ops && t.ops[p] == s.ops[p]) || HandleOf(t.ops[p]) == None
    requires forall h :: (h in s.arcs && h !in t.arcs) || (h in s.weaks && h !in t.weaks) ==> Unused(t, h)
    ensures Borrowed(t)
  {
    forall p | p in t.ops && HandleOf(t.ops[p]).Some?
      ensures HandleOf(t.ops[p]).value in (if OnWeak(t.ops[p]) then t.weaks else t.arcs)
    {
      assert !Unused(t, HandleOf(t.ops[p]).value);
    }
  }

  lemma KeepsClone(s: State, h: Handle, h': Handle)
    requires Inv(s) && Enabled(s, Clone(h, h'))
    ensures Inv(Next(s, Clone(h, h')))
  {
    hide Locks, Windows, Lasts, Releases, Frees, Builds, Borrowed;
    var t := Next(s, Clone(h, h'));
    assert Borrowed(t) by { BorrowsFewer(s, t); }
    OpSame(s, t);
    NoWindow(s, h, {});
    if |s.arcs| == 1 { SoleUsers(s, h, {}); }
    assert |t.arcs| == |s.arcs| + 1;
  }

  lemma NoBuilder(s: State)
    requires Builds(s) == 0
    ensures forall p :: p in s.ops ==> !IsBuilding(s.ops[p])
  {
    forall p | p in s.ops { InClass(s, p); }
  }

  /** Where there is a weak handle nobody has mutable access. */
  lemma NotExclusive(s: State, t: State)
    requires Phased(s) && Exclusive(s) && s.weaks != {}
    requires forall p :: p in t.ops && !IsFreeing(t.ops[p]) ==> p in s.ops && t.ops[p] == s.ops[p]
    ensures Exclusive(t)
  {
    hide Locks, Windows, Lasts, Releases, Frees, Builds;
    forall p | p in s.ops { InClass(s, p); }
  }

  /** Nor where one strong handle is being downgraded. */
  lemma SharedNotExclusive(s: State, t: State, o: OpId)
    requires Inv(s) && o in s.ops && s.ops[o].Downgrading? && Locks(s) == 0
    requires t.ops == s.ops - {o}
    ensures Exclusive(t)
  {
    hide Locks, Windows, Lasts, Releases, Frees, Builds, Counted, Tracked;
    SharedUsers(s, o);
    forall p | p in s.ops { InClass(s, p); }
    if |s.arcs| == 1 { SoleUsers(s, s.ops[o].arc, {}); }
  }

  /** Operations on weak handles claim no mutable access. */
  lemma NoArcOps(t: State)
    requires forall p :: p in t.ops && HandleOf(t.ops[p]).Some? ==> OnWeak(t.ops[p])
    ensures Exclusive(t)
  {
  }

  /** The last strong handle is consumed, by `drop`, `try_unwrap` or the end of a cloning `make_mut`. */
  lemma KeepsLastArc(s: State, t: State, h: Handle, o: OpId, last: Op)
    requires Inv(s) && h in s.arcs && |s.arcs| == 1 && IsLast(last)
    requires forall p :: p in s.ops && HandleOf(s.ops[p]) == Some(h) ==> p == o
    requires o in s.ops ==> s.ops[o] == CloningOut(h)
    requires t == s.(strong := 0, arcs := {}, ops := s.ops[o := last])
    ensures Inv(t)
  {
    hide Locks, Windows, Lasts, Releases, Frees, Builds, Borrowed, Exclusive;
    OpSet(s, t, o, last);
    OnlyMember(s.arcs, h);
    BorrowsFewer(s, t);
    NoWindow(s, h, {o});
    OtherLock(s, h, {o});
    OthersOnWeak(s, h, o);
    NoArcOps(t);
  }

  /** A strong handle is dropped, by `drop` or at the end of a cloning `make_mut`. */
  lemma KeepsLoseArc(s: State, t: State, h: Handle, o: OpId)
    requires Inv(s) && h in s.arcs
    requires forall p :: p in s.ops && HandleOf(s.ops[p]) == Some(h) ==> p == o
    requires o in s.ops ==> s.ops[o] == CloningOut(h)
    requires t == s.(strong := FetchSub(s.strong), arcs := s.arcs - {h}, ops := AfterDrop(s, o, Destroying, s.strong))
    ensures Inv(t)
  {
    hide Locks, Windows, Lasts, Releases, Frees, Builds, Borrowed;
    NoWindow(s, h, {o});
    if |s.arcs| == 1 {
      OnlyMember(s.arcs, h);
      KeepsLastArc(s, t, h, o, Destroying);
    } else {
      OpEnd(s, t, o);
      BorrowsFewer(s, t);
      OtherLock(s, h, {o});
      assert |t.arcs| == |s.arcs| - 1;
    }
  }

  /** An operation starts without touching a counter or a handle. */
  lemma KeepsMove(s: State, t: State, o: OpId, op: Op)
    requires Inv(s) && t == s.(ops := s.ops[o := op])
    requires op.Downgrading? || op.Upgrading? || op.CloningOut?
    requires HandleOf(op).value in (if OnWeak(op) then s.weaks else s.arcs)
    requires o !in s.ops
    requires Sharable(s, HandleOf(op).value) && (!Shares(op) ==> Unused(s, HandleOf(op).value))
    ensures Inv(t)
  {
    hide Locks, Windows, Lasts, Releases, Frees, Builds, Borrowed;
    OpSet(s, t, o, op);
    BorrowsStart(s, t, o, op);
  }

  /** A compare-exchange fails and the loop goes round with the value it found. */
  lemma KeepsRetry(s: State, t: State, o: OpId, op: Op)
    requires Inv(s) && o in s.ops && t == s.(ops := s.ops[o := op])
    requires (op.Downgrading? && s.ops[o].Downgrading?) || (op.Upgrading? && s.ops[o].Upgrading?)
    requires HandleOf(s.ops[o]) == HandleOf(op)
    ensures Inv(t)
  {
    hide Locks, Windows, Lasts, Releases, Frees, Builds, Borrowed;
    OpSet(s, t, o, op);
    BorrowsNext(s, t, o, op);
  }

  lemma KeepsCloneOut(s: State, o: OpId)
    requires Inv(s) && Enabled(s, CloneOut(o))
    ensures Inv(Next(s, CloneOut(o)))
  {
    SoleUser(s, o);
    KeepsLoseArc(s, Next(s, CloneOut(o)), s.ops[o].arc, o);
  }

  /** An operation ends without touching a counter or a handle. */
  lemma KeepsEnd(s: State, t: State, o: OpId)
    requires Inv(s) && o in s.ops && t == s.(ops := s.ops - {o})
    requires s.ops[o].Holding? || s.ops[o].CloningOut? || s.ops[o].Upgrading? || s.ops[o].Building?
    ensures Inv(t)
  {
    hide Locks, Windows, Lasts, Releases, Frees, Builds, Borrowed;
    OpEnd(s, t, o);
    BorrowsFewer(s, t);
  }

  /** Weak handles have no part in what becomes of the value. */
  lemma TrackedSame(s: State, t: State)
    requires Tracked(s) && t.data == s.data && t.destroyed == s.destroyed && t.arcs == s.arcs
    requires forall p :: p in t.ops ==> p in s.ops && t.ops[p] == s.ops[p]
    requires Lasts(t) == Lasts(s) && Releases(t) == Releases(s) && Builds(t) == Builds(s)
    ensures Tracked(t)
  {
    hide Lasts, Releases, Builds;
  }

  lemma DowngradeCounts(s: State, o: OpId, h': Handle)
    requires Inv(s) && Enabled(s, DowngradeCas(o, h', false)) && s.weak == s.ops[o].cur
    ensures Counted(Next(s, DowngradeCas(o, h', false))) && Phased(Next(s, DowngradeCas(o, h', false)))
    ensures Locks(s) == 0
  {
    hide Locks, Windows, Lasts, Releases, Frees, Builds, Borrowed, Exclusive, Tracked;
    var t := Next(s, DowngradeCas(o, h', false));
    OpEnd(s, t, o);
    SharedUsers(s, o);
    NoWindow(s, s.ops[o].arc, {});
    assert |t.weaks| == |s.weaks| + 1;
  }

  lemma KeepsDowngrade(s: State, o: OpId, h': Handle)
    requires Inv(s) && Enabled(s, DowngradeCas(o, h', false)) && s.weak == s.ops[o].cur
    ensures Inv(Next(s, DowngradeCas(o, h', false)))
  {
    hide Counted, Phased, Borrowed, Exclusive, Tracked, Locks, Windows, Lasts, Releases, Frees, Builds;
    var t := Next(s, DowngradeCas(o, h', false));
    DowngradeCounts(s, o, h');
    OpEnd(s, t, o);
    BorrowsFewer(s, t);
    TrackedSame(s, t);
    SharedNotExclusive(s, t, o);
  }

  lemma KeepsTryUnwrap(s: State, h: Handle, o: OpId)
    requires Inv(s) && Enabled(s, TryUnwrap(h, o))
    ensures Inv(Next(s, TryUnwrap(h, o)))
  {
    hide Locks, Windows, Lasts, Releases, Frees, Builds, Borrowed;
    if s.strong == 1 {
      NoWindow(s, h, {});
      OnlyMember(s.arcs, h);
      KeepsLastArc(s, Next(s, TryUnwrap(h, o)), h, o, Taking);
    }
  }

  lemma KeepsLockWeak(s: State, h: Handle, o: OpId)
    requires Inv(s) && Enabled(s, LockWeak(h, o))
    ensures Inv(Next(s, LockWeak(h, o)))
  {
    hide Locks, Windows, Lasts, Releases, Frees, Builds, Borrowed;
    if s.weak == 1 {
      var t := Next(s, LockWeak(h, o));
      OpSet(s, t, o, CheckingUnique(h));
      BorrowsStart(s, t, o, CheckingUnique(h));
      NoWindow(s, h, {});
    }
  }

  lemma KeepsLoadStrong(s: State, o: OpId)
    requires Inv(s) && Enabled(s, LoadStrong(o))
    ensures Inv(Next(s, LoadStrong(o)))
  {
    hide Locks, Windows, Lasts, Releases, Frees, Builds, Borrowed;
    var t := Next(s, LoadStrong(o));
    OpSet(s, t, o, t.ops[o]);
    BorrowsNext(s, t, o, t.ops[o]);
    SoleUser(s, o);
    ArcOf(s, o);
    NoWindow(s, s.ops[o].arc, {o});
  }

  lemma KeepsUnlock(s: State, o: OpId)
    requires Inv(s) && Enabled(s, Unlock(o))
    ensures Inv(Next(s, Unlock(o)))
  {
    hide Locks, Windows, Lasts, Releases, Frees, Builds, Borrowed;
    var t := Next(s, Unlock(o));
    InClass(s, o);
    if s.ops[o].unique {
      OpSet(s, t, o, t.ops[o]);
      BorrowsNext(s, t, o, t.ops[o]);
    } else {
      OpEnd(s, t, o);
      BorrowsFewer(s, t);
    }
  }

  lemma KeepsMakeMut(s: State, h: Handle, o: OpId)
    requires Inv(s) && Enabled(s, MakeMut(h, o)) && s.strong == 1
    ensures Inv(Next(s, MakeMut(h, o)))
  {
    hide Locks, Windows, Lasts, Releases, Frees, Builds, Borrowed;
    var t := Next(s, MakeMut(h, o));
    OpSet(s, t, o, CheckingWeak(h));
    BorrowsStart(s, t, o, CheckingWeak(h));
    NoWindow(s, h, {});
  }

  lemma KeepsLoadWeak(s: State, o: OpId)
    requires Inv(s) && Enabled(s, LoadWeak(o))
    ensures Inv(Next(s, LoadWeak(o)))
    ensures s.weak != USIZE_MAX
  {
    hide Locks, Windows, Lasts, Releases, Frees, Builds, Borrowed;
    var t := Next(s, LoadWeak(o));
    OpSet(s, t, o, t.ops[o]);
    BorrowsNext(s, t, o, t.ops[o]);
    InClass(s, o);
    NotLocked(s, o);
  }

  lemma MoveOutCounts(s: State, o: OpId)
    requires Inv(s) && Enabled(s, MoveOut(o))
    ensures Counted(Next(s, MoveOut(o))) && Phased(Next(s, MoveOut(o)))
  {
    hide Locks, Windows, Lasts, Releases, Frees, Builds, Borrowed, Exclusive, Tracked;
    OpSet(s, Next(s, MoveOut(o)), o, Releasing);
    InClass(s, o);
    NotLocked(s, o);
  }

  lemma MoveOutRest(s: State, o: OpId)
    requires Inv(s) && Enabled(s, MoveOut(o))
    ensures Borrowed(Next(s, MoveOut(o))) && Exclusive(Next(s, MoveOut(o))) && Tracked(Next(s, MoveOut(o)))
  {
    hide Locks, Windows, Lasts, Releases, Frees, Builds, Borrowed, Exclusive, Counted;
    var t, h := Next(s, MoveOut(o)), s.ops[o].arc;
    OpSet(s, t, o, Releasing);
    SoleUser(s, o);
    InClass(s, o);
    NotLocked(s, o);
    BorrowsFewer(s, t);
    OthersOnWeak(s, h, o);
    NoArcOps(t);
    NoBuilder(s);
  }

  lemma KeepsMoveOut(s: State, o: OpId)
    requires Inv(s) && Enabled(s, MoveOut(o))
    ensures Inv(Next(s, MoveOut(o)))
  {
    hide Next, Counted, Phased, Borrowed, Exclusive, Tracked;
    MoveOutCounts(s, o);
    MoveOutRest(s, o);
  }

  lemma KeepsRestore(s: State, o: OpId)
    requires Inv(s) && Enabled(s, Restore(o))
    ensures Inv(Next(s, Restore(o)))
  {
    hide Locks, Windows, Lasts, Releases, Frees, Builds, Borrowed;
    var t := Next(s, Restore(o));
    OpSet(s, t, o, Holding(s.ops[o].arc));
    BorrowsNext(s, t, o, Holding(s.ops[o].arc));
    InClass(s, o);
  }

  /** The last strong reference destroys the value, even if its destructor panics, or hands it out. */
  lemma KeepsDispose(s: State, t: State, o: OpId, after: Op)
    requires Inv(s) && o in s.ops && IsLast(s.ops[o]) && IsReleasing(after)
    requires t == s.(data := Gone, destroyed := s.destroyed + 1, ops := s.ops[o := after])
    ensures Inv(t)
  {
    hide Locks, Windows, Lasts, Releases, Frees, Builds, Borrowed;
    OpSet(s, t, o, after);
    BorrowsFewer(s, t);
    InClass(s, o);
    NoBuilder(s);
  }

  lemma KeepsRelease(s: State, o: OpId)
    requires Inv(s) && Enabled(s, Release(o))
    ensures Inv(Next(s, Release(o)))
  {
    hide Locks, Windows, Lasts, Releases, Frees, Builds, Borrowed;
    var t := Next(s, Release(o));
    InClass(s, o);
    if s.weak == 1 { OpSet(s, t, o, Freeing); } else { OpEnd(s, t, o); }
    BorrowsFewer(s, t);
    assert s.weaks == {} <==> |s.weaks| == 0;
  }

  lemma KeepsFree(s: State, o: OpId)
    requires Inv(s) && Enabled(s, Free(o))
    ensures Inv(Next(s, Free(o)))
  {
    hide Locks, Windows, Lasts, Releases, Frees, Builds, Borrowed;
    OpEnd(s, Next(s, Free(o)), o);
    BorrowsFewer(s, Next(s, Free(o)));
    InClass(s, o);
  }

  /** Whoever has a weak handle finds the weak count unlocked. */
  lemma LockUnmet(s: State, h: Handle)
    requires Inv(s) && h in s.weaks
    ensures s.weak != USIZE_MAX
  {
    hide Borrowed, Exclusive, Tracked;
  }

  lemma KeepsCloneWeak(s: State, h: Handle, h': Handle)
    requires Inv(s) && Enabled(s, CloneWeak(h, h'))
    ensures Inv(Next(s, CloneWeak(h, h')))
    ensures s.weak != USIZE_MAX
  {
    hide Locks, Windows, Lasts, Releases, Frees, Builds, Borrowed, Exclusive, Tracked;
    var t := Next(s, CloneWeak(h, h'));
    OpSame(s, t);
    TrackedSame(s, t);
    BorrowsFewer(s, t);
    NotExclusive(s, t);
    LockUnmet(s, h);
    assert |t.weaks| == |s.weaks| + 1;
  }

  lemma KeepsDropWeak(s: State, h: Handle, o: OpId)
    requires Inv(s) && Enabled(s, DropWeak(h, o))
    ensures Inv(Next(s, DropWeak(h, o)))
    ensures s.weak != USIZE_MAX
  {
    hide Inv;
    var t := Next(s, DropWeak(h, o));
    LockUnmet(s, h);
    if s.weak == 1 {
      KeepsLastWeak(s, t, h, o);
    } else {
      assert t.ops == s.ops;
      KeepsOtherWeak(s, t, h);
    }
  }

  lemma KeepsOtherWeak(s: State, t: State, h: Handle)
    requires Inv(s) && h in s.weaks && Unused(s, h) && s.weak != 1
    requires t == s.(weak := FetchSub(s.weak), weaks := s.weaks - {h})
    ensures Inv(t)
  {
    hide Locks, Windows, Lasts, Releases, Frees, Builds, Borrowed, Exclusive, Tracked;
    assert |t.weaks| == |s.weaks| - 1 && (t.weaks == {} <==> |t.weaks| == 0);
    OpSame(s, t);
    TrackedSame(s, t);
    BorrowsFewer(s, t);
    NotExclusive(s, t);
  }

  lemma KeepsLastWeak(s: State, t: State, h: Handle, o: OpId)
    requires Inv(s) && h in s.weaks && Unused(s, h) && o !in s.ops && s.weak == 1
    requires t == s.(weak := 0, weaks := s.weaks - {h}, ops := s.ops[o := Freeing])
    ensures Inv(t)
  {
    hide Locks, Windows, Lasts, Releases, Frees, Builds, Borrowed, Exclusive;
    OpSet(s, t, o, Freeing);
    BorrowsFewer(s, t);
    NotExclusive(s, t);
    assert |t.weaks| == |s.weaks| - 1 && |s.weaks| == 1 && t.weaks == {};
    forall p | p in s.ops { InClass(s, p); }
  }

  /** A positive strong count gains one. */
  lemma UpgradedState(s: State, t: State, h': Handle)
    requires Counted(s) && Phased(s) && 0 < s.strong <= MAX_REFCOUNT && Fresh(s, h')
    requires t.strong == s.strong + 1 && t.arcs == s.arcs + {h'} && t.weak == s.weak && t.weaks == s.weaks
    requires t.freed == s.freed && Windows(t) == Windows(s) && Locks(t) == Locks(s) && Lasts(t) == Lasts(s)
    requires Releases(t) == Releases(s) && Frees(t) == Frees(s) && Builds(t) == Builds(s)
    ensures Counted(t) && Phased(t) && s.arcs != {}
  {
    hide Locks, Windows, Lasts, Releases, Frees, Builds;
    assert |t.arcs| == |s.arcs| + 1;
    assert s.arcs != {} && t.arcs != {};
  }

  lemma UpgradeCounts(s: State, o: OpId, h': Handle)
    requires Inv(s) && Enabled(s, UpgradeCas(o, h', false)) && s.strong == s.ops[o].n
    ensures Counted(Next(s, UpgradeCas(o, h', false))) && Phased(Next(s, UpgradeCas(o, h', false)))
    ensures s.arcs != {}
  {
    hide Locks, Windows, Lasts, Releases, Frees, Builds, Borrowed, Exclusive, Tracked, Counted, Phased;
    var t := Next(s, UpgradeCas(o, h', false));
    OpEnd(s, t, o);
    UpgradedState(s, t, h');
  }

  lemma KeepsUpgrade(s: State, o: OpId, h': Handle)
    requires Inv(s) && Enabled(s, UpgradeCas(o, h', false)) && s.strong == s.ops[o].n
    ensures Inv(Next(s, UpgradeCas(o, h', false)))
  {
    hide Locks, Windows, Lasts, Releases, Frees, Builds, Borrowed, Exclusive, Counted;
    var t := Next(s, UpgradeCas(o, h', false));
    UpgradeCounts(s, o, h');
    OpEnd(s, t, o);
    BorrowsFewer(s, t);
    WeakOf(s, o);
    NotExclusive(s, t);
  }

  lemma KeepsWriteData(s: State, o: OpId)
    requires Inv(s) && Enabled(s, WriteData(o))
    ensures Inv(Next(s, WriteData(o)))
  {
    hide Locks, Windows, Lasts, Releases, Frees, Builds, Borrowed;
    var t := Next(s, WriteData(o));
    OpSet(s, t, o, Publishing(s.ops[o].weak));
    BorrowsNext(s, t, o, Publishing(s.ops[o].weak));
    InClass(s, o);
    forall p | p in s.ops && s.ops[p].Building? ensures p == o { OneBuild(s, o, p); }
  }

  lemma OneBuild(s: State, o: OpId, p: OpId)
    requires Phased(s) && o in s.ops && p in s.ops && IsBuilding(s.ops[o]) && IsBuilding(s.ops[p])
    ensures o == p
  {
    CountOne(s.ops, IsBuilding, o, p);
  }

  /** During `new_cyclic` there is no strong handle, and nothing that needs one goes on. */
  lemma BuildingState(s: State, o: OpId)
    requires Counted(s) && Phased(s) && o in s.ops && IsBuilding(s.ops[o])
    ensures s.arcs == {} && s.strong == 0 && s.weak == |s.weaks| <= MAX_REFCOUNT + 1
    ensures Windows(s) == 0 && Locks(s) == 0 && Lasts(s) == 0 && Releases(s) == 0 && Builds(s) == 1
    ensures s.weaks != {} ==> Frees(s) + s.freed == 0
  {
    hide Locks, Windows, Lasts, Releases, Frees, Builds;
    InClass(s, o);
  }

  /** After it there is one, which has taken over the weak reference of the construction. */
  lemma PublishedState(t: State, h': Handle, weaks: set<Handle>, w: Handle)
    requires w in weaks && t.weaks == weaks - {w} && t.arcs == {h'} && t.strong == 1
    requires t.weak == |weaks| <= MAX_REFCOUNT + 1
    requires Windows(t) == 0 && Locks(t) == 0 && Lasts(t) == 0 && Releases(t) == 0 && Builds(t) == 0
    requires Frees(t) + t.freed == 0
    ensures Counted(t) && Phased(t)
  {
    hide Locks, Windows, Lasts, Releases, Frees, Builds;
    assert |t.weaks| == |weaks| - 1 && |t.arcs| == 1;
  }

  lemma PublishCounts(s: State, o: OpId, h': Handle)
    requires Inv(s) && Enabled(s, Publish(o, h'))
    ensures Counted(Next(s, Publish(o, h'))) && Phased(Next(s, Publish(o, h')))
    ensures s.strong == 0
  {
    hide Locks, Windows, Lasts, Releases, Frees, Builds, Borrowed, Exclusive, Tracked, Counted, Phased;
    var t := Next(s, Publish(o, h'));
    BuildingState(s, o);
    WeakOf(s, o);
    OpEnd(s, t, o);
    PublishedState(t, h', s.weaks, s.ops[o].weak);
  }

  lemma KeepsPublish(s: State, o: OpId, h': Handle)
    requires Inv(s) && Enabled(s, Publish(o, h'))
    ensures Inv(Next(s, Publish(o, h')))
    ensures s.strong == 0
  {
    hide Locks, Windows, Lasts, Releases, Frees, Builds, Borrowed, Exclusive, Counted;
    var t := Next(s, Publish(o, h'));
    PublishCounts(s, o, h');
    OpEnd(s, t, o);
    SoleUser(s, o);
    WeakOf(s, o);
    BorrowsFewer(s, t);
    NotExclusive(s, t);
    InClass(s, o);
    forall p | p in s.ops && IsBuilding(s.ops[p]) ensures p == o { OneBuild(s, o, p); }
  }

  /** The steps of operations on strong handles. */
  predicate OnArc(step: Step) {
    || step.Clone? || step.DropArc? || step.StartDowngrade? || step.DowngradeSpin? || step.DowngradeCas?
    || step.TryUnwrap? || step.LockWeak? || step.LoadStrong? || step.Unlock? || step.EndHold?
  }

  lemma ArcStepKeepsInv(s: State, step: Step)
    requires Inv(s) && Enabled(s, step) && OnArc(step)
    ensures Inv(Next(s, step))
  {
    hide Inv;
    var t := Next(s, step);
    match step
    case Clone(h, h') => KeepsClone(s, h, h');
    case DropArc(h, o) => KeepsLoseArc(s, t, h, o);
    case StartDowngrade(h, o) => KeepsMove(s, t, o, Downgrading(h, s.weak));
    case DowngradeSpin(o) => KeepsRetry(s, t, o, Downgrading(s.ops[o].arc, s.weak));
    case DowngradeCas(o, h', spurious) =>
      if s.weak == s.ops[o].cur && !spurious {
        KeepsDowngrade(s, o, h');
      } else {
        KeepsRetry(s, t, o, Downgrading(s.ops[o].arc, s.weak));
      }
    case TryUnwrap(h, o) => KeepsTryUnwrap(s, h, o);
    case LockWeak(h, o) => KeepsLockWeak(s, h, o);
    case LoadStrong(o) => KeepsLoadStrong(s, o);
    case Unlock(o) => KeepsUnlock(s, o);
    case EndHold(o) => KeepsEnd(s, t, o);
  }

  lemma StepKeepsInv(s: State, step: Step)
    requires Inv(s) && Enabled(s, step)
    ensures Inv(Next(s, step))
  {
    hide Inv;
    var t := Next(s, step);
    if OnArc(step) {
      ArcStepKeepsInv(s, step);
    } else {
      match step
      case MakeMut(h, o) =>
        if s.strong == 1 { KeepsMakeMut(s, h, o); } else { KeepsMove(s, t, o, CloningOut(h)); }
      case CloneOut(o) => KeepsCloneOut(s, o);
      case CloneOutPanics(o) => KeepsEnd(s, t, o);
      case LoadWeak(o) => KeepsLoadWeak(s, o);
      case MoveOut(o) => KeepsMoveOut(s, o);
      case Restore(o) => KeepsRestore(s, o);
      case Destroy(o) => KeepsDispose(s, t, o, Releasing);
      case DestroyPanics(o) => KeepsDispose(s, t, o, Unwound);
      case Take(o) => KeepsDispose(s, t, o, Releasing);
      case Release(o) => KeepsRelease(s, o);
      case Free(o) => KeepsFree(s, o);
      case CloneWeak(h, h') => KeepsCloneWeak(s, h, h');
      case DropWeak(h, o) => KeepsDropWeak(s, h, o);
      case StartUpgrade(h, o) => KeepsMove(s, t, o, Upgrading(h, s.strong));
      case UpgradeCas(o, h', spurious) =>
        if s.strong == s.ops[o].n && !spurious {
          KeepsUpgrade(s, o, h');
        } else {
          KeepsRetry(s, t, o, Upgrading(s.ops[o].weak, s.strong));
        }
      case UpgradeNone(o) => KeepsEnd(s, t, o);
      case WriteData(o) => KeepsWriteData(s, o);
      case BuildPanics(o) => KeepsEnd(s, t, o);
      case Publish(o, h') => KeepsPublish(s, o, h');
    }
  }

  lemma OneOp(s: State, o: OpId, op: Op)
    requires s.ops == map[o := op]
    ensures Locks(s) == One(IsLock(op)) && Windows(s) == One(IsWindow(op)) && Lasts(s) == One(IsLast(op))
    ensures Releases(s) == One(IsReleasing(op)) && Frees(s) == One(IsFreeing(op)) && Builds(s) == One(IsBuilding(op))
  {
    var none := s.(ops := map[]);
    NoOps(none);
    assert s.ops == none.ops[o := op];
    OpSet(none, s, o, op);
  }

  lemma NoOps(s: State)
    requires s.ops == map[]
    ensures Locks(s) == 0 && Windows(s) == 0 && Lasts(s) == 0
    ensures Releases(s) == 0 && Frees(s) == 0 && Builds(s) == 0
  {
  }

  lemma InitInv(s: State)
    requires Init(s)
    ensures Inv(s)
  {
    hide Locks, Windows, Lasts, Releases, Frees, Builds;
    if s.ops == map[] {
      NoOps(s);
    } else {
      var o :| o in s.ops;
      OneOp(s, o, s.ops[o]);
    }
  }

  lemma {:induction false} RunKeepsInv(s: State, steps: seq<Step>)
    requires Inv(s) && Runs(s, steps)
    ensures Inv(Final(s, steps))
    decreases |steps|
  {
    hide Inv, Enabled, Next;
    if steps != [] {
      StepKeepsInv(s, steps[0]);
      RunKeepsInv(Next(s, steps[0]), steps[1..]);
    }
  }

  // -----------------------------------------------------------------------------------------
  // What every run guarantees

  /** The states that some run from a fresh block ends in. */
  ghost predicate Reachable(s: State) {
    exists s0, steps :: Init(s0) && Runs(s0, steps) && s == Final(s0, steps)
  }

  lemma ReachableInv(s: State)
    requires Reachable(s)
    ensures Inv(s)
  {
    hide Inv;
    var s0, steps :| Init(s0) && Runs(s0, steps) && s == Final(s0, steps);
    InitInv(s0);
    RunKeepsInv(s0, steps);
  }

  /** The value is disposed of at most once and only without strong handles; the block is freed at
      most once, only without any handle, and after that no step can touch it. */
  lemma DisposedOnce(s: State)
    requires Reachable(s)
    ensures s.destroyed <= 1 && s.freed <= 1
    ensures s.destroyed == 1 ==> s.arcs == {} && s.strong == 0
    ensures s.freed == 1 ==> s.arcs == {} && s.weaks == {} && s.data != Live
    ensures s.freed == 1 ==> forall step :: !Enabled(s, step)
  {
    ReachableInv(s);
    forall o | o in s.ops { InClass(s, o); }
    if s.data == Gone && Windows(s) > 0 {
      var p := CountWitness(s.ops, IsWindow);
    }
  }

  /** Whoever reads or moves the value finds it in place, in a block that has not been freed. */
  lemma ValueInPlace(s: State)
    requires Reachable(s)
    ensures s.arcs != {} ==> s.data == Live && s.freed == 0
    ensures forall o :: o in s.ops &&
                        (IsLast(s.ops[o]) || IsWindow(s.ops[o]) || s.ops[o].CloningOut? || s.ops[o].Holding?) ==>
              s.data == Live && s.freed == 0
    ensures forall o :: o in s.ops ==> s.freed == 0
  {
    ReachableInv(s);
    forall o | o in s.ops { InClass(s, o); }
  }

  /** The counters are the handles, in every reachable state. */
  lemma CountersAreHandles(s: State)
    requires Reachable(s)
    ensures s.strong == if exists o :: o in s.ops && IsWindow(s.ops[o]) then 0 else |s.arcs|
    ensures s.weak == USIZE_MAX <==> exists o :: o in s.ops && IsLock(s.ops[o])
    ensures s.weak != USIZE_MAX ==> s.weak == |s.weaks| + Implicit(s)
    ensures s.weak == USIZE_MAX ==> s.weaks == {}
  {
    ReachableInv(s);
    forall o | o in s.ops { InClass(s, o); }
    if Windows(s) > 0 { var p := CountWitness(s.ops, IsWindow); }
    if Locks(s) > 0 { var p := CountWitness(s.ops, IsLock); }
  }

  /** With one strong handle, no weak one, and that handle in mutable use, nothing else goes on. */
  lemma SoleOp(s: State, o: OpId)
    requires Inv(s) && o in s.ops && |s.arcs| == 1 && s.weaks == {}
    requires s.ops[o].Holding? || s.ops[o].Restoring?
    ensures s.arcs == {s.ops[o].arc} && s.ops == map[o := s.ops[o]]
  {
    hide Locks, Windows, Lasts, Releases, Frees, Builds;
    OnlyMember(s.arcs, s.ops[o].arc);
    forall p | p in s.ops
      ensures p == o
    {
      InClass(s, p);
      assert HandleOf(s.ops[p]).Some?;
      assert Clash(s.ops[o], s.ops[p]);
    }
  }

  /** Whoever was given `&mut T` holds the only handle of either kind, until giving it back. */
  lemma MutableIsUnique(s: State, o: OpId)
    requires Reachable(s) && o in s.ops && s.ops[o].Holding?
    ensures s.arcs == {s.ops[o].arc} && s.weaks == {}
    ensures s.ops == map[o := s.ops[o]]
    ensures forall step :: Enabled(s, step) ==> step == EndHold(o)
  {
    hide Enabled;
    ReachableInv(s);
    SoleOp(s, o);
    OnlyEndHold(s, o);
  }

  lemma OnlyEndHold(s: State, o: OpId)
    requires o in s.ops && s.ops == map[o := s.ops[o]] && s.ops[o].Holding? && s.arcs == {s.ops[o].arc} && s.weaks == {}
    ensures forall step :: Enabled(s, step) ==> step == EndHold(o)
  {
    assert HandleOf(s.ops[o]) == Some(s.ops[o].arc);
  }

  /** When `make_mut` puts the strong count back from 0 to 1 nobody can have seen the zero. */
  lemma WindowUnseen(s: State, o: OpId)
    requires Reachable(s) && o in s.ops && s.ops[o].Restoring?
    ensures s.strong == 0 && s.arcs == {s.ops[o].arc} && s.weaks == {}
    ensures s.ops == map[o := s.ops[o]]
  {
    ReachableInv(s);
    InClass(s, o);
    SoleOp(s, o);
  }

  /** Nothing leaks except by a panic: once every handle is dropped and every operation has ended, the
      block is freed and its value, if there ever was one, disposed of; only a destructor that
      panicked keeps the block. */
  lemma NothingLeaks(s: State)
    requires Reachable(s) && s.arcs == {} && s.weaks == {} && forall o :: o in s.ops ==> s.ops[o].Unwound?
    ensures s.freed == if s.ops == map[] then 1 else 0
    ensures s.destroyed == 1 || s.data == Uninit
  {
    ReachableInv(s);
    CountNone(s.ops, IsLast);
    CountNone(s.ops, IsFreeing);
    CountNone(s.ops, IsBuilding);
    if s.ops == map[] {
      CountNone(s.ops, IsReleasing);
    } else {
      var o :| o in s.ops;
      InClass(s, o);
    }
  }

  lemma ArcOpsLocal(s: State, step: Step, p: OpId)
    requires Enabled(s, step) && OnArc(step) && (step.Clone? || step.o != p)
    ensures p in Next(s, step).ops <==> p in s.ops
    ensures p in s.ops ==> Next(s, step).ops[p] == s.ops[p]
  {
    hide Enabled;
  }

  lemma OtherOpsLocal(s: State, step: Step, p: OpId)
    requires Enabled(s, step) && !OnArc(step) && (step.CloneWeak? || step.o != p)
    ensures p in Next(s, step).ops <==> p in s.ops
    ensures p in s.ops ==> Next(s, step).ops[p] == s.ops[p]
  {
    hide Enabled;
  }

  /** A step changes at most the operation it belongs to. */
  lemma OpsLocal(s: State, step: Step, p: OpId)
    requires Enabled(s, step) && (step.Clone? || step.CloneWeak? || step.o != p)
    ensures p in Next(s, step).ops <==> p in s.ops
    ensures p in s.ops ==> Next(s, step).ops[p] == s.ops[p]
  {
    hide Enabled, Next;
    if OnArc(step) { ArcOpsLocal(s, step, p); } else { OtherOpsLocal(s, step, p); }
  }

  lemma UnwoundState(s: State, o: OpId)
    requires Inv(s) && o in s.ops && s.ops[o].Unwound?
    ensures s.freed == 0 && s.destroyed == 1 && s.arcs == {} && s.strong == 0 && s.weak == |s.weaks| + 1
  {
    hide Borrowed, Exclusive, Locks, Windows, Lasts, Releases, Frees, Builds;
    InClass(s, o);
  }

  /** After a destructor has panicked the block is never freed, in any run: the weak count goes on
      counting the weak handles and the reference left behind, and there is no strong handle again. */
  lemma {:induction false} UnwoundForGood(s: State, o: OpId, steps: seq<Step>)
    requires Inv(s) && o in s.ops && s.ops[o].Unwound? && Runs(s, steps)
    ensures var t := Final(s, steps);
            && o in t.ops && t.ops[o].Unwound? && t.freed == 0 && t.destroyed == 1
            && t.arcs == {} && t.strong == 0 && t.weak == |t.weaks| + 1
    decreases |steps|
  {
    if steps == [] {
      UnwoundState(s, o);
    } else {
      hide Inv, Next;
      OpsLocal(s, steps[0], o);
      StepKeepsInv(s, steps[0]);
      hide Enabled;
      UnwoundForGood(Next(s, steps[0]), o, steps[1..]);
    }
  }

  /** A weak handle cannot bring the value back: once disposed of it stays so, and no upgrade
      succeeds. */
  lemma GoneForGood(s: State, step: Step)
    requires Reachable(s) && s.data == Gone && Enabled(s, step)
    ensures Next(s, step).data == Gone && Next(s, step).arcs == {}
  {
    ReachableInv(s);
    StepKeepsInv(s, step);
    DisposedOnce(s);
    if step.WriteData? { InClass(s, step.o); }
    assert Tracked(Next(s, step));
  }

  /** `new_cyclic` publishes from a strong count of zero. */
  lemma PublishFromZero(s: State, o: OpId, h': Handle)
    requires Reachable(s) && Enabled(s, Publish(o, h'))
    ensures s.strong == 0
  {
    ReachableInv(s);
    KeepsPublish(s, o, h');
  }
}
