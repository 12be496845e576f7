/** `Rc` and `Weak` over a heap of boxes whose values own further handles.

    Destroying a value runs other destructors, and those may clone, upgrade, move or drop handles, so
    the state has a stack of the boxes whose values are being destroyed, innermost last.  A step is one
    call of the interface, or the end of one destruction. */
module RcHeap {
  import opened Words
  import opened Counting

  type BoxId = nat
  type HandleId = nat

  datatype Kind = Strong | Weak

  /** Who holds a handle: the running code, or the value in a box. */
  datatype Owner = Outside | Inside(holder: BoxId)

  datatype Handle = Handle(kind: Kind, target: BoxId, owner: Owner)

  /** The value of a box: not written yet, in place, being destroyed, gone, or gone by a destructor
      that panicked. */
  datatype Phase = Unborn | Live | Dying | Gone | Leaked

  /** `frees` counts how often the box has been deallocated. */
  datatype Box = Box(strong: nat, weak: nat, phase: Phase, frees: nat)

  /** `builders` are the calls of `new_cyclic` in progress, with the weak handle each keeps. */
  datatype State = State(
    boxes: map<BoxId, Box>, handles: map<HandleId, Handle>, stack: seq<BoxId>, builders: map<BoxId, HandleId>)

  datatype Step =
    | New(b: BoxId, h: HandleId)
    | Clone(h: HandleId, h': HandleId)
    | Downgrade(h: HandleId, h': HandleId)
    | Upgrade(h: HandleId, h': HandleId)
    | Give(h: HandleId, owner: Owner)
    | Drop(h: HandleId)
    | FinishDestroying
    | DestroyPanics
    | TryUnwrap(h: HandleId)
    | MakeMutSteal(h: HandleId, b': BoxId)
    | NewCyclic(b: BoxId, w: HandleId)
    | CyclicInit(b: BoxId, h: HandleId)
    | CyclicPanics(b: BoxId)

  /** `h` is not the handle a `new_cyclic` keeps for itself. */
  ghost predicate Movable(s: State, h: HandleId) {
    forall b :: b in s.builders ==> s.builders[b] != h
  }

  ghost predicate Holds(s: State, b: BoxId) {
    b in s.boxes && (s.boxes[b].phase == Live || s.boxes[b].phase == Dying)
  }

  ghost function Target(s: State, h: HandleId): Box
    requires h in s.handles && s.handles[h].target in s.boxes
  {
    s.boxes[s.handles[h].target]
  }

  ghost predicate Known(s: State, h: HandleId) {
    h in s.handles && s.handles[h].target in s.boxes
  }

  /** The value destroyed last has dropped all it held; unwinding does so as well. */
  ghost predicate Emptied(s: State) {
    && s.stack != [] && s.stack[|s.stack| - 1] in s.boxes
    && forall h :: h in s.handles ==> s.handles[h].owner != Inside(s.stack[|s.stack| - 1])
  }

  ghost predicate Enabled(s: State, step: Step) {
    match step
    case New(b, h) => b !in s.boxes && h !in s.handles
    case Clone(h, h') =>
      && Known(s, h) && h' !in s.handles
      && (if s.handles[h].kind == Strong then Target(s, h).strong else Target(s, h).weak) < USIZE_MAX
    case Downgrade(h, h') =>
      Known(s, h) && h' !in s.handles && s.handles[h].kind == Strong && Target(s, h).weak < USIZE_MAX
    case Upgrade(h, h') =>
      Known(s, h) && h' !in s.handles && s.handles[h].kind == Weak && 0 < Target(s, h).strong < USIZE_MAX
    case Give(h, owner) => Known(s, h) && Movable(s, h) && (owner.Inside? ==> Holds(s, owner.holder))
    case Drop(h) => Known(s, h) && Movable(s, h)
    case FinishDestroying => Emptied(s)
    case DestroyPanics => Emptied(s)
    case TryUnwrap(h) =>
      Known(s, h) && s.handles[h].kind == Strong && s.handles[h].owner == Outside && Target(s, h).strong == 1
    case MakeMutSteal(h, b') =>
      && Known(s, h) && s.handles[h].kind == Strong && b' !in s.boxes
      && Target(s, h).strong == 1 && Target(s, h).weak - 1 != 0
    case NewCyclic(b, w) => b !in s.boxes && w !in s.handles
    case CyclicInit(b, h) => b in s.builders && b in s.boxes && h !in s.handles
    case CyclicPanics(b) => b in s.builders
  }

  /** `Cell` arithmetic on a machine word. */
  function Dec(x: nat): nat {
    if x == 0 then USIZE_MAX else x - 1
  }

  /** Removes one weak reference; a box left without any is deallocated. */
  function DecWeak(box: Box): Box {
    var w := Dec(box.weak);
    box.(weak := w, frees := box.frees + if w == 0 then 1 else 0)
  }

  /** A value moves: the handles it owns change their holder. */
  ghost function Rehoused(handles: map<HandleId, Handle>, from: BoxId, owner: Owner): map<HandleId, Handle> {
    map h | h in handles :: if handles[h].owner == Inside(from) then handles[h].(owner := owner) else handles[h]
  }

  ghost function Next(s: State, step: Step): State
    requires Enabled(s, step)
  {
    match step
    case New(b, h) =>
      s.(boxes := s.boxes[b := Box(1, 1, Live, 0)], handles := s.handles[h := Handle(Strong, b, Outside)])
    case Clone(h, h') =>
      var t := s.handles[h].target;
      var box := s.boxes[t];
      s.(boxes := s.boxes[t := if s.handles[h].kind == Strong then box.(strong := box.strong + 1)
                               else box.(weak := box.weak + 1)],
         handles := s.handles[h' := s.handles[h].(owner := Outside)])
    case Downgrade(h, h') =>
      var t := s.handles[h].target;
      s.(boxes := s.boxes[t := s.boxes[t].(weak := s.boxes[t].weak + 1)],
         handles := s.handles[h' := Handle(Weak, t, Outside)])
    case Upgrade(h, h') =>
      var t := s.handles[h].target;
      s.(boxes := s.boxes[t := s.boxes[t].(strong := s.boxes[t].strong + 1)],
         handles := s.handles[h' := Handle(Strong, t, Outside)])
    case Give(h, owner) =>
      s.(handles := s.handles[h := s.handles[h].(owner := owner)])
    case Drop(h) =>
      var t := s.handles[h].target;
      var box := s.boxes[t];
      if s.handles[h].kind == Weak then
        s.(boxes := s.boxes[t := DecWeak(box)], handles := s.handles - {h})
      else if Dec(box.strong) != 0 then
        s.(boxes := s.boxes[t := box.(strong := Dec(box.strong))], handles := s.handles - {h})
      else
        s.(boxes := s.boxes[t := box.(strong := 0, phase := Dying)], handles := s.handles - {h}, stack := s.stack + [t])
    case FinishDestroying =>
      var n := |s.stack| - 1;
      var b := s.stack[n];
      s.(boxes := s.boxes[b := DecWeak(s.boxes[b].(phase := Gone))], stack := s.stack[..n])
    case DestroyPanics =>  // the implicit weak reference is never released
      var n := |s.stack| - 1;
      var b := s.stack[n];
      s.(boxes := s.boxes[b := s.boxes[b].(phase := Leaked)], stack := s.stack[..n])
    case TryUnwrap(h) =>
      var t := s.handles[h].target;
      s.(boxes := s.boxes[t := DecWeak(s.boxes[t].(strong := Dec(s.boxes[t].strong), phase := Gone))],
         handles := Rehoused(s.handles - {h}, t, Outside))
    case MakeMutSteal(h, b') =>  // the value moves to a new box; the old one is left to its weak handles
      var t := s.handles[h].target;
      var box := s.boxes[t];
      s.(boxes := s.boxes[t := box.(strong := Dec(box.strong), weak := Dec(box.weak), phase := Gone)]
                         [b' := Box(1, 1, Live, 0)],
         handles := Rehoused(s.handles[h := s.handles[h].(target := b')], t, Inside(b')))
    case NewCyclic(b, w) =>
      s.(boxes := s.boxes[b := Box(0, 1, Unborn, 0)], handles := s.handles[w := Handle(Weak, b, Outside)],
         builders := s.builders[b := w])
    case CyclicInit(b, h) =>
      s.(boxes := s.boxes[b := s.boxes[b].(strong := 1, phase := Live)],
         handles := (s.handles - {s.builders[b]})[h := Handle(Strong, b, Outside)],
         builders := s.builders - {b})
    case CyclicPanics(b) =>
      s.(builders := s.builders - {b})
  }

  // -----------------------------------------------------------------------------------------
  // The invariant

  ghost function StrongTo(b: BoxId): Handle -> bool {
    (h: Handle) => h.kind == Strong && h.target == b
  }

  ghost function WeakTo(b: BoxId): Handle -> bool {
    (h: Handle) => h.kind == Weak && h.target == b
  }

  ghost function Strongs(s: State, b: BoxId): nat { Count(s.handles, StrongTo(b)) }
  ghost function Weaks(s: State, b: BoxId): nat { Count(s.handles, WeakTo(b)) }

  /** The weak reference that the strong handles hold together, until the value is destroyed; a
      destructor that panics leaves it behind. */
  ghost function Implicit(box: Box): nat {
    if box.phase == Live || box.phase == Dying || box.phase == Leaked then 1 else 0
  }

  /** The counters of a box are its handles, and it is freed exactly when the weak count is zero. */
  ghost predicate BoxOk(s: State, b: BoxId)
    requires b in s.boxes
  {
    var box := s.boxes[b];
    && box.strong == Strongs(s, b)
    && box.weak == Weaks(s, b) + Implicit(box)
    && box.strong <= USIZE_MAX && box.weak <= USIZE_MAX
    && (box.phase == Live <==> box.strong > 0)
    && box.frees == (if box.weak == 0 then 1 else 0)
    && (box.phase == Dying <==> b in s.stack)
  }

  ghost predicate HandlesOk(s: State) {
    forall h :: h in s.handles ==>
      && s.handles[h].target in s.boxes
      && (s.handles[h].owner.Inside? ==> Holds(s, s.handles[h].owner.holder))
  }

  ghost predicate BuildersOk(s: State) {
    forall b :: b in s.builders ==>
      && b in s.boxes && s.boxes[b].phase == Unborn
      && s.builders[b] in s.handles && s.handles[s.builders[b]] == Handle(Weak, b, Outside)
  }

  ghost predicate StackOk(s: State) {
    && (forall i :: 0 <= i < |s.stack| ==> s.stack[i] in s.boxes)
    && (forall i, j :: 0 <= i < j < |s.stack| ==> s.stack[i] != s.stack[j])
  }

  ghost predicate Linked(s: State) {
    HandlesOk(s) && BuildersOk(s) && StackOk(s)
  }

  ghost predicate Inv(s: State) {
    (forall b :: b in s.boxes ==> BoxOk(s, b)) && Linked(s)
  }

  // -----------------------------------------------------------------------------------------
  // Every step keeps the invariant

  ghost function One(c: bool): nat {
    if c then 1 else 0
  }

  /** The two states agree on the counts of every box but those in `except`. */
  ghost predicate SameCounts(s: State, t: State, except: set<BoxId>) {
    forall c :: c !in except ==> Strongs(t, c) == Strongs(s, c) && Weaks(t, c) == Weaks(s, c)
  }

  lemma HandleAdded(s: State, t: State, h: HandleId, v: Handle)
    requires h !in s.handles && t.handles == s.handles[h := v]
    ensures Strongs(t, v.target) == Strongs(s, v.target) + One(v.kind == Strong)
    ensures Weaks(t, v.target) == Weaks(s, v.target) + One(v.kind == Weak)
    ensures SameCounts(s, t, {v.target})
  {
    forall b
      ensures Strongs(t, b) == Strongs(s, b) + One(v.kind == Strong && v.target == b)
      ensures Weaks(t, b) == Weaks(s, b) + One(v.kind == Weak && v.target == b)
    {
      CountUpdate(s.handles, h, v, StrongTo(b));
      CountUpdate(s.handles, h, v, WeakTo(b));
    }
  }

  lemma HandleRemoved(s: State, t: State, h: HandleId)
    requires h in s.handles && t.handles == s.handles - {h}
    ensures var v := s.handles[h];
            && Strongs(t, v.target) == Strongs(s, v.target) - One(v.kind == Strong)
            && Weaks(t, v.target) == Weaks(s, v.target) - One(v.kind == Weak)
            && SameCounts(s, t, {v.target})
  {
    var v := s.handles[h];
    forall b
      ensures Strongs(t, b) == Strongs(s, b) - One(v.kind == Strong && v.target == b)
      ensures Weaks(t, b) == Weaks(s, b) - One(v.kind == Weak && v.target == b)
    {
      CountRemove(s.handles, h, StrongTo(b));
      CountRemove(s.handles, h, WeakTo(b));
    }
  }

  /** Moving a value from box to box leaves every count alone. */
  lemma HandlesRehoused(s: State, t: State, from: BoxId, owner: Owner)
    requires t.handles == Rehoused(s.handles, from, owner)
    ensures SameCounts(s, t, {})
  {
    forall b
      ensures Strongs(t, b) == Strongs(s, b) && Weaks(t, b) == Weaks(s, b)
    {
      assert Matching(t.handles, StrongTo(b)) == Matching(s.handles, StrongTo(b));
      assert Matching(t.handles, WeakTo(b)) == Matching(s.handles, WeakTo(b));
    }
  }

  lemma HandlesSame(s: State, t: State)
    requires t.handles == s.handles
    ensures SameCounts(s, t, {})
  {
  }

  /** If only the boxes in `touched` changed, only those need to be looked at. */
  lemma Locally(s: State, t: State, touched: set<BoxId>)
    requires forall b :: b in s.boxes ==> BoxOk(s, b)
    requires forall b :: b in t.boxes && b !in touched ==> b in s.boxes && t.boxes[b] == s.boxes[b]
    requires forall b :: b in t.boxes && b !in touched ==> (b in t.stack <==> b in s.stack)
    requires SameCounts(s, t, touched)
    requires forall b :: b in touched && b in t.boxes ==> BoxOk(t, b)
    ensures forall b :: b in t.boxes ==> BoxOk(t, b)
  {
  }

  /** A handle is counted in its target, which is therefore not freed. */
  lemma HandleCounts(s: State, h: HandleId)
    requires Inv(s) && h in s.handles
    ensures s.handles[h].target in s.boxes
    ensures var box := s.boxes[s.handles[h].target];
            && box.weak > 0 && box.frees == 0
            && (s.handles[h].kind == Strong ==> box.strong > 0 && box.phase == Live && s.handles[h].target !in s.stack)
            && (s.handles[h].kind == Weak ==> Weaks(s, s.handles[h].target) > 0)
  {
    var b := s.handles[h].target;
    assert BoxOk(s, b);
    if s.handles[h].kind == Strong {
      CountPositive(s.handles, h, StrongTo(b));
    } else {
      CountPositive(s.handles, h, WeakTo(b));
    }
  }

  /** No handle points to a box that does not exist. */
  lemma NoHandles(s: State, b: BoxId)
    requires HandlesOk(s) && b !in s.boxes
    ensures Strongs(s, b) == 0 && Weaks(s, b) == 0
  {
  }

  lemma CountsNew(s: State, b: BoxId, h: HandleId)
    requires Inv(s) && Enabled(s, New(b, h))
    ensures forall c :: c in Next(s, New(b, h)).boxes ==> BoxOk(Next(s, New(b, h)), c)
  {
    hide Strongs, Weaks, SameCounts;
    var t := Next(s, New(b, h));
    NoHandles(s, b);
    HandleAdded(s, t, h, Handle(Strong, b, Outside));
    Locally(s, t, {b});
  }

  lemma CountsClone(s: State, h: HandleId, h': HandleId)
    requires Inv(s) && Enabled(s, Clone(h, h'))
    ensures forall c :: c in Next(s, Clone(h, h')).boxes ==> BoxOk(Next(s, Clone(h, h')), c)
  {
    hide Strongs, Weaks, SameCounts;
    var t := Next(s, Clone(h, h'));
    HandleCounts(s, h);
    HandleAdded(s, t, h', s.handles[h].(owner := Outside));
    Locally(s, t, {s.handles[h].target});
  }

  lemma CountsDowngrade(s: State, h: HandleId, h': HandleId)
    requires Inv(s) && Enabled(s, Downgrade(h, h'))
    ensures forall c :: c in Next(s, Downgrade(h, h')).boxes ==> BoxOk(Next(s, Downgrade(h, h')), c)
  {
    hide Strongs, Weaks, SameCounts;
    var t, b := Next(s, Downgrade(h, h')), s.handles[h].target;
    HandleCounts(s, h);
    HandleAdded(s, t, h', Handle(Weak, b, Outside));
    Locally(s, t, {b});
  }

  lemma CountsUpgrade(s: State, h: HandleId, h': HandleId)
    requires Inv(s) && Enabled(s, Upgrade(h, h'))
    ensures forall c :: c in Next(s, Upgrade(h, h')).boxes ==> BoxOk(Next(s, Upgrade(h, h')), c)
  {
    hide Strongs, Weaks, SameCounts;
    var t, b := Next(s, Upgrade(h, h')), s.handles[h].target;
    HandleAdded(s, t, h', Handle(Strong, b, Outside));
    Locally(s, t, {b});
  }

  lemma CountsGive(s: State, h: HandleId, owner: Owner)
    requires Inv(s) && Enabled(s, Give(h, owner))
    ensures forall c :: c in Next(s, Give(h, owner)).boxes ==> BoxOk(Next(s, Give(h, owner)), c)
  {
    var t := Next(s, Give(h, owner));
    forall b
      ensures Strongs(t, b) == Strongs(s, b) && Weaks(t, b) == Weaks(s, b)
    {
      CountUpdate(s.handles, h, t.handles[h], StrongTo(b));
      CountUpdate(s.handles, h, t.handles[h], WeakTo(b));
    }
    hide Strongs, Weaks;
    Locally(s, t, {});
  }

  lemma CountsDropWeak(s: State, h: HandleId)
    requires Inv(s) && Enabled(s, Drop(h)) && s.handles[h].kind == Weak
    ensures forall c :: c in Next(s, Drop(h)).boxes ==> BoxOk(Next(s, Drop(h)), c)
  {
    hide Strongs, Weaks, SameCounts;
    var t := Next(s, Drop(h));
    HandleCounts(s, h);
    HandleRemoved(s, t, h);
    Locally(s, t, {s.handles[h].target});
  }

  lemma CountsDropStrong(s: State, h: HandleId)
    requires Inv(s) && Enabled(s, Drop(h)) && s.handles[h].kind == Strong
    ensures forall c :: c in Next(s, Drop(h)).boxes ==> BoxOk(Next(s, Drop(h)), c)
  {
    hide Strongs, Weaks, SameCounts;
    var t, b := Next(s, Drop(h)), s.handles[h].target;
    HandleCounts(s, h);
    HandleRemoved(s, t, h);
    assert BoxOk(s, b);
    Locally(s, t, {b});
  }

  lemma SameAt(s: State, t: State, b: BoxId)
    requires SameCounts(s, t, {})
    ensures Strongs(t, b) == Strongs(s, b) && Weaks(t, b) == Weaks(s, b)
  {
  }

  lemma SameMost(s: State, t: State, b: BoxId)
    requires SameCounts(s, t, {})
    ensures SameCounts(s, t, {b})
  {
  }

  /** A value is being destroyed once. */
  lemma TopOnce(s: State, b: BoxId)
    requires StackOk(s) && s.stack != [] && b == s.stack[|s.stack| - 1]
    ensures b !in s.stack[..|s.stack| - 1]
    ensures forall c :: c != b ==> (c in s.stack[..|s.stack| - 1] <==> c in s.stack)
  {
    var n := |s.stack| - 1;
    assert s.stack == s.stack[..n] + [b];
  }

  lemma CountsFinish(s: State)
    requires Inv(s) && Enabled(s, FinishDestroying)
    ensures forall c :: c in Next(s, FinishDestroying).boxes ==> BoxOk(Next(s, FinishDestroying), c)
  {
    hide Strongs, Weaks, SameCounts, Linked, HandlesOk, BuildersOk;
    var t, b := Next(s, FinishDestroying), s.stack[|s.stack| - 1];
    assert BoxOk(s, b);
    HandlesSame(s, t);
    SameAt(s, t, b);
    SameMost(s, t, b);
    LinkedParts(s);
    TopOnce(s, b);
    Locally(s, t, {b});
  }

  lemma CountsPanic(s: State)
    requires Inv(s) && Enabled(s, DestroyPanics)
    ensures forall c :: c in Next(s, DestroyPanics).boxes ==> BoxOk(Next(s, DestroyPanics), c)
  {
    hide Strongs, Weaks, SameCounts, Linked, HandlesOk, BuildersOk;
    var t, b := Next(s, DestroyPanics), s.stack[|s.stack| - 1];
    assert BoxOk(s, b);
    HandlesSame(s, t);
    SameAt(s, t, b);
    SameMost(s, t, b);
    LinkedParts(s);
    TopOnce(s, b);
    Locally(s, t, {b});
  }

  lemma SameTrans(s: State, m: State, t: State, except: set<BoxId>)
    requires SameCounts(s, m, except) && SameCounts(m, t, {})
    ensures SameCounts(s, t, except)
  {
  }

  lemma CountsTryUnwrap(s: State, h: HandleId)
    requires Inv(s) && Enabled(s, TryUnwrap(h))
    ensures forall c :: c in Next(s, TryUnwrap(h)).boxes ==> BoxOk(Next(s, TryUnwrap(h)), c)
  {
    hide Strongs, Weaks, SameCounts, Linked;
    var t, b := Next(s, TryUnwrap(h)), s.handles[h].target;
    var mid := s.(handles := s.handles - {h});
    HandleCounts(s, h);
    assert BoxOk(s, b);
    HandleRemoved(s, mid, h);
    HandlesRehoused(mid, t, b, Outside);
    SameTrans(s, mid, t, {b});
    SameAt(mid, t, b);
    Locally(s, t, {b});
  }

  lemma CountsSteal(s: State, h: HandleId, b': BoxId)
    requires Inv(s) && Enabled(s, MakeMutSteal(h, b'))
    ensures forall c :: c in Next(s, MakeMutSteal(h, b')).boxes ==> BoxOk(Next(s, MakeMutSteal(h, b')), c)
  {
    hide Strongs, Weaks, SameCounts, Linked;
    var t, b := Next(s, MakeMutSteal(h, b')), s.handles[h].target;
    var mid := s.(handles := s.handles[h := s.handles[h].(target := b')]);
    HandleCounts(s, h);
    LinkedParts(s);
    assert BoxOk(s, b);
    NoHandles(s, b');
    HandleRetargeted(s, mid, h, b');
    HandlesRehoused(mid, t, b, Inside(b'));
    SameTrans(s, mid, t, {b, b'});
    SameAt(mid, t, b);
    SameAt(mid, t, b');
    Locally(s, t, {b, b'});
  }

  lemma HandleRetargeted(s: State, t: State, h: HandleId, b': BoxId)
    requires h in s.handles && s.handles[h].kind == Strong && s.handles[h].target != b'
    requires t.handles == s.handles[h := s.handles[h].(target := b')]
    ensures var b := s.handles[h].target;
            && Strongs(t, b) == Strongs(s, b) - 1 && Weaks(t, b) == Weaks(s, b)
            && Strongs(t, b') == Strongs(s, b') + 1 && Weaks(t, b') == Weaks(s, b')
            && SameCounts(s, t, {b, b'})
  {
    var b := s.handles[h].target;
    forall c
      ensures Strongs(t, c) == Strongs(s, c) - One(c == b) + One(c == b')
      ensures Weaks(t, c) == Weaks(s, c)
    {
      CountUpdate(s.handles, h, t.handles[h], StrongTo(c));
      CountUpdate(s.handles, h, t.handles[h], WeakTo(c));
    }
  }

  lemma CountsNewCyclic(s: State, b: BoxId, w: HandleId)
    requires Inv(s) && Enabled(s, NewCyclic(b, w))
    ensures forall c :: c in Next(s, NewCyclic(b, w)).boxes ==> BoxOk(Next(s, NewCyclic(b, w)), c)
  {
    hide Strongs, Weaks, SameCounts;
    var t := Next(s, NewCyclic(b, w));
    NoHandles(s, b);
    HandleAdded(s, t, w, Handle(Weak, b, Outside));
    Locally(s, t, {b});
  }

  lemma CountsCyclicInit(s: State, b: BoxId, h: HandleId)
    requires Inv(s) && Enabled(s, CyclicInit(b, h))
    ensures forall c :: c in Next(s, CyclicInit(b, h)).boxes ==> BoxOk(Next(s, CyclicInit(b, h)), c)
    ensures s.boxes[b].strong == 0
  {
    hide Strongs, Weaks, SameCounts;
    var t, w := Next(s, CyclicInit(b, h)), s.builders[b];
    HandleCounts(s, w);
    HandleSwapped(s, t, w, h, b);
    assert BoxOk(s, b);
    Locally(s, t, {b});
  }

  lemma HandleSwapped(s: State, t: State, w: HandleId, h: HandleId, b: BoxId)
    requires w in s.handles && s.handles[w] == Handle(Weak, b, Outside) && h !in s.handles
    requires t.handles == (s.handles - {w})[h := Handle(Strong, b, Outside)]
    ensures Strongs(t, b) == Strongs(s, b) + 1 && Weaks(t, b) == Weaks(s, b) - 1 && SameCounts(s, t, {b})
  {
    hide Strongs, Weaks;
    var mid := s.(handles := s.handles - {w});
    HandleRemoved(s, mid, w);
    HandleAdded(mid, t, h, Handle(Strong, b, Outside));
  }

  lemma CountsCyclicPanics(s: State, b: BoxId)
    requires Inv(s) && Enabled(s, CyclicPanics(b))
    ensures forall c :: c in Next(s, CyclicPanics(b)).boxes ==> BoxOk(Next(s, CyclicPanics(b)), c)
  {
    hide Strongs, Weaks, SameCounts;
    var t := Next(s, CyclicPanics(b));
    HandlesSame(s, t);
    Locally(s, t, {});
  }

  // -----------------------------------------------------------------------------------------
  // Handles keep pointing to boxes, and stay in values that exist

  /** Every step that does not end a value's life: boxes that hold handles still do. */
  lemma LinksStay(s: State, t: State)
    requires Linked(s) && t.stack == s.stack && t.builders == s.builders
    requires forall b :: b in s.boxes ==> b in t.boxes && t.boxes[b].phase == s.boxes[b].phase
    requires forall h :: h in s.handles && !Movable(s, h) ==> h in t.handles && t.handles[h] == s.handles[h]
    requires forall h :: h in t.handles ==>
               || (h in s.handles && t.handles[h] == s.handles[h])
               || (&& t.handles[h].target in t.boxes
                   && (t.handles[h].owner.Inside? ==> Holds(t, t.handles[h].owner.holder)))
    ensures Linked(t)
  {
  }

  /** The value of `b` is gone, after everything it held. */
  lemma LinksEnd(s: State, t: State, b: BoxId)
    requires Linked(s) && b in s.boxes && s.boxes[b].phase != Unborn && t.builders == s.builders && StackOk(t)
    requires forall c :: c in s.boxes ==> c in t.boxes && (c != b ==> t.boxes[c].phase == s.boxes[c].phase)
    requires forall w :: w in s.handles && !Movable(s, w) ==> w in t.handles && t.handles[w] == s.handles[w]
    requires forall h :: h in t.handles ==>
               && t.handles[h].target in t.boxes && t.handles[h].owner != Inside(b)
               && (t.handles[h].owner.Inside? ==>
                     Holds(s, t.handles[h].owner.holder) || Holds(t, t.handles[h].owner.holder))
    ensures Linked(t)
  {
  }

  lemma LinkedParts(s: State)
    requires Linked(s)
    ensures HandlesOk(s) && StackOk(s)
  {
  }

  /** Handles kept by a `new_cyclic` in progress are weak and outside. */
  lemma BuilderHandle(s: State, w: HandleId)
    requires Linked(s) && w in s.handles && !Movable(s, w)
    ensures s.handles[w].kind == Weak && s.handles[w].owner == Outside
  {
  }

  lemma LinksDrop(s: State, h: HandleId)
    requires Inv(s) && Enabled(s, Drop(h))
    ensures Linked(Next(s, Drop(h)))
  {
    hide BoxOk, Linked;
    var t, b := Next(s, Drop(h)), s.handles[h].target;
    HandleCounts(s, h);
    if t.stack == s.stack {
      LinksStay(s, t);
    } else {
      LinksDying(s, t, b);
    }
  }

  /** A value starts to be destroyed: it still holds what it held. */
  lemma LinksDying(s: State, t: State, b: BoxId)
    requires Linked(s) && b in s.boxes && s.boxes[b].phase == Live && b !in s.stack
    requires t.stack == s.stack + [b] && t.builders == s.builders
    requires t.boxes == s.boxes[b := s.boxes[b].(strong := 0, phase := Dying)]
    requires forall h :: h in t.handles ==> h in s.handles && t.handles[h] == s.handles[h]
    requires forall h :: h in s.handles && !Movable(s, h) ==> h in t.handles
    ensures Linked(t)
  {
  }

  lemma FinishLinks(s: State, t: State, b: BoxId, box: Box)
    requires Linked(s) && Emptied(s) && b == s.stack[|s.stack| - 1] && s.boxes[b].phase == Dying
    requires t.stack == s.stack[..|s.stack| - 1] && t.handles == s.handles && t.builders == s.builders
    requires t.boxes == s.boxes[b := box]
    ensures Linked(t)
  {
    LinksEnd(s, t, b);
  }

  /** The value destroyed last is gone, by either way. */
  lemma LinksFinish(s: State, step: Step)
    requires Inv(s) && Enabled(s, step) && (step == FinishDestroying || step == DestroyPanics)
    ensures Linked(Next(s, step))
  {
    hide Linked;
    var t, b := Next(s, step), s.stack[|s.stack| - 1];
    assert BoxOk(s, b);
    hide BoxOk, Strongs, Weaks;
    LinkedParts(s);
    FinishLinks(s, t, b, t.boxes[b]);
  }

  lemma LinksTryUnwrap(s: State, h: HandleId)
    requires Inv(s) && Enabled(s, TryUnwrap(h))
    ensures Linked(Next(s, TryUnwrap(h)))
  {
    hide BoxOk, Linked, BuildersOk;
    var t, b := Next(s, TryUnwrap(h)), s.handles[h].target;
    HandleCounts(s, h);
    LinkedParts(s);
    forall w | w in s.handles && !Movable(s, w)
      ensures w in t.handles && t.handles[w] == s.handles[w]
    {
      BuilderHandle(s, w);
    }
    LinksEnd(s, t, b);
  }

  lemma LinksSteal(s: State, h: HandleId, b': BoxId)
    requires Inv(s) && Enabled(s, MakeMutSteal(h, b'))
    ensures Linked(Next(s, MakeMutSteal(h, b')))
  {
    hide BoxOk, Linked, BuildersOk;
    var t, b := Next(s, MakeMutSteal(h, b')), s.handles[h].target;
    HandleCounts(s, h);
    LinkedParts(s);
    forall w | w in s.handles && !Movable(s, w)
      ensures w in t.handles && t.handles[w] == s.handles[w]
    {
      BuilderHandle(s, w);
    }
    LinksEnd(s, t, b);
  }

  lemma LinksNewCyclic(s: State, b: BoxId, w: HandleId)
    requires Linked(s) && Enabled(s, NewCyclic(b, w))
    ensures Linked(Next(s, NewCyclic(b, w)))
  {
    var t := Next(s, NewCyclic(b, w));
    assert HandlesOk(t);
    assert BuildersOk(t);
  }

  lemma LinksCyclicInit(s: State, b: BoxId, h: HandleId)
    requires Linked(s) && Enabled(s, CyclicInit(b, h))
    ensures Linked(Next(s, CyclicInit(b, h)))
  {
  }

  lemma LinksCyclicPanics(s: State, b: BoxId)
    requires Linked(s) && Enabled(s, CyclicPanics(b))
    ensures Linked(Next(s, CyclicPanics(b)))
  {
  }

  lemma StepKeepsInv(s: State, step: Step)
    requires Inv(s) && Enabled(s, step)
    ensures Inv(Next(s, step))
  {
    StepKeepsCounts(s, step);
    StepKeepsLinks(s, step);
  }

  lemma StepKeepsCounts(s: State, step: Step)
    requires Inv(s) && Enabled(s, step)
    ensures forall b :: b in Next(s, step).boxes ==> BoxOk(Next(s, step), b)
  {
    hide BoxOk, Linked;
    match step
    case New(b, h) => CountsNew(s, b, h);
    case Clone(h, h') => CountsClone(s, h, h');
    case Downgrade(h, h') => CountsDowngrade(s, h, h');
    case Upgrade(h, h') => CountsUpgrade(s, h, h');
    case Give(h, owner) => CountsGive(s, h, owner);
    case Drop(h) => if s.handles[h].kind == Weak { CountsDropWeak(s, h); } else { CountsDropStrong(s, h); }
    case FinishDestroying => CountsFinish(s);
    case DestroyPanics => CountsPanic(s);
    case TryUnwrap(h) => CountsTryUnwrap(s, h);
    case MakeMutSteal(h, b') => CountsSteal(s, h, b');
    case NewCyclic(b, w) => CountsNewCyclic(s, b, w);
    case CyclicInit(b, h) => CountsCyclicInit(s, b, h);
    case CyclicPanics(b) => CountsCyclicPanics(s, b);
  }

  /** The steps that change nothing about what values hold. */
  lemma LinksOther(s: State, step: Step)
    requires Linked(s) && Enabled(s, step) && (step.New? || step.Clone? || step.Downgrade? || step.Upgrade?)
    ensures Linked(Next(s, step))
  {
    LinkedParts(s);
    hide Linked, BuildersOk, StackOk;
    LinksStay(s, Next(s, step));
  }

  lemma LinksGive(s: State, h: HandleId, owner: Owner)
    requires Linked(s) && Enabled(s, Give(h, owner))
    ensures Linked(Next(s, Give(h, owner)))
  {
    LinkedParts(s);
    hide Linked, BuildersOk, StackOk;
    LinksStay(s, Next(s, Give(h, owner)));
  }

  lemma StepKeepsLinks(s: State, step: Step)
    requires Inv(s) && Enabled(s, step)
    ensures Linked(Next(s, step))
  {
    hide BoxOk, Linked;
    match step
    case Give(h, owner) => LinksGive(s, h, owner);
    case Drop(h) => LinksDrop(s, h);
    case FinishDestroying => LinksFinish(s, step);
    case DestroyPanics => LinksFinish(s, step);
    case TryUnwrap(h) => LinksTryUnwrap(s, h);
    case MakeMutSteal(h, b') => LinksSteal(s, h, b');
    case NewCyclic(b, w) => LinksNewCyclic(s, b, w);
    case CyclicInit(b, h) => LinksCyclicInit(s, b, h);
    case CyclicPanics(b) => LinksCyclicPanics(s, b);
    case _ => LinksOther(s, step);
  }

  // -----------------------------------------------------------------------------------------
  // What every run guarantees

  ghost predicate Runs(s: State, steps: seq<Step>)
    decreases |steps|
  {
    steps == [] || (Enabled(s, steps[0]) && Runs(Next(s, steps[0]), steps[1..]))
  }

  ghost function Final(s: State, steps: seq<Step>): State
    requires Runs(s, steps)
    decreases |steps|
  {
    if steps == [] then s else Final(Next(s, steps[0]), steps[1..])
  }

  ghost function EmptyHeap(): State {
    State(map[], map[], [], map[])
  }

  /** The states that some run from an empty heap ends in. */
  ghost predicate Reachable(s: State) {
    exists steps :: Runs(EmptyHeap(), steps) && s == Final(EmptyHeap(), steps)
  }

  lemma {:induction false} RunKeepsInv(s: State, steps: seq<Step>)
    requires Inv(s) && Runs(s, steps)
    ensures Inv(Final(s, steps))
    decreases |steps|
  {
    hide Inv, Enabled, Next;
    if steps != [] {
      StepKeepsInv(s, steps[0]);
      RunKeepsInv(Next(s, steps[0]), steps[1..]);
    }
  }

  lemma EmptyInv()
    ensures Inv(EmptyHeap())
  {
  }

  lemma ReachableInv(s: State)
    requires Reachable(s)
    ensures Inv(s)
  {
    hide Inv, Runs, Final;
    var steps :| Runs(EmptyHeap(), steps) && s == Final(EmptyHeap(), steps);
    EmptyInv();
    RunKeepsInv(EmptyHeap(), steps);
  }

  /** In every box the counters are the handles, plus the implicit weak reference until the value has
      been destroyed; the box is freed at most once, and exactly when nothing refers to it. */
  lemma CountersAreHandles(s: State, b: BoxId)
    requires Reachable(s) && b in s.boxes
    ensures s.boxes[b].strong == Strongs(s, b)
    ensures s.boxes[b].weak == Weaks(s, b) + Implicit(s.boxes[b])
    ensures s.boxes[b].frees <= 1
    ensures s.boxes[b].frees == 1 <==> Strongs(s, b) == 0 && Weaks(s, b) == 0 && Implicit(s.boxes[b]) == 0
  {
    ReachableInv(s);
    assert BoxOk(s, b);
  }

  /** Without a value, but with the implicit reference, a box is allocated and cannot be upgraded to. */
  lemma ValuelessBox(s: State, b: BoxId)
    requires Inv(s) && b in s.boxes && (s.boxes[b].phase == Dying || s.boxes[b].phase == Leaked)
    ensures s.boxes[b].strong == 0 && s.boxes[b].frees == 0 && s.boxes[b].weak == Weaks(s, b) + 1
  {
    assert BoxOk(s, b);
  }

  lemma DyingStays(s: State, b: BoxId, step: Step)
    requires Inv(s) && b in s.boxes && s.boxes[b].phase == Dying && Enabled(s, step)
    requires step != FinishDestroying
    ensures b in Next(s, step).boxes
    ensures Next(s, step).boxes[b].phase == Dying || (step == DestroyPanics && Next(s, step).boxes[b].phase == Leaked)
  {
    hide BoxOk, Strongs, Weaks;
    if (step.Drop? && s.handles[step.h].kind == Strong) || step.TryUnwrap? || step.MakeMutSteal? {
      HandleCounts(s, step.h);
    }
  }

  /** While the value is being destroyed its box stays allocated, whatever weak handles the value
      itself holds, and no weak handle can be upgraded. */
  lemma DyingIsSafe(s: State, b: BoxId, step: Step)
    requires Reachable(s) && b in s.boxes && s.boxes[b].phase == Dying && Enabled(s, step)
    ensures s.boxes[b].frees == 0 && s.boxes[b].strong == 0
    ensures step.Upgrade? ==> s.handles[step.h].target != b
    ensures b in Next(s, step).boxes && Next(s, step).boxes[b].strong == 0
    ensures step != FinishDestroying ==> Next(s, step).boxes[b].frees == 0
    ensures step != FinishDestroying && step != DestroyPanics ==> Next(s, step).boxes[b].phase == Dying
  {
    hide BoxOk, Linked, Strongs, Weaks;
    ReachableInv(s);
    ValuelessBox(s, b);
    StepKeepsInv(s, step);
    if step != FinishDestroying {
      DyingStays(s, b, step);
      ValuelessBox(Next(s, step), b);
    }
  }

  /** Nothing is going on with a leaked box: it has only weak handles. */
  lemma LeakedIdle(s: State, b: BoxId)
    requires Inv(s) && b in s.boxes && s.boxes[b].phase == Leaked
    ensures b !in s.stack && b !in s.builders
    ensures forall h :: h in s.handles && s.handles[h].target == b ==> s.handles[h].kind == Weak
  {
    assert BoxOk(s, b);
    forall h | h in s.handles && s.handles[h].target == b && s.handles[h].kind == Strong
      ensures false
    {
      CountPositive(s.handles, h, StrongTo(b));
    }
  }

  lemma LeakedStays(s: State, b: BoxId, step: Step)
    requires Inv(s) && b in s.boxes && s.boxes[b].phase == Leaked && Enabled(s, step)
    ensures b in Next(s, step).boxes && Next(s, step).boxes[b].phase == Leaked
  {
    hide Inv;
    LeakedIdle(s, b);
  }

  /** A box whose value's destructor panicked is never freed, in any run: its counters go on counting
      its handles, with the implicit reference that nobody will release, and no upgrade succeeds. */
  lemma {:induction false} LeakedForGood(s: State, b: BoxId, steps: seq<Step>)
    requires Inv(s) && b in s.boxes && s.boxes[b].phase == Leaked && Runs(s, steps)
    ensures var t := Final(s, steps);
            && b in t.boxes && t.boxes[b].phase == Leaked && t.boxes[b].frees == 0
            && t.boxes[b].strong == 0 && t.boxes[b].weak == Weaks(t, b) + 1
            && forall h, h' :: h in t.handles && t.handles[h].target == b ==> !Enabled(t, Upgrade(h, h'))
    decreases |steps|
  {
    if steps == [] {
      hide Inv;
      ValuelessBox(s, b);
    } else {
      hide Inv, Enabled, Next;
      StepKeepsInv(s, steps[0]);
      LeakedStays(s, b, steps[0]);
      LeakedForGood(Next(s, steps[0]), b, steps[1..]);
    }
  }

  /** Whoever has a handle reaches an allocated box; a strong handle also reaches its value, and the
      increments never find the zero on which they would abort. */
  lemma HandlesAreSafe(s: State, h: HandleId)
    requires Reachable(s) && h in s.handles
    ensures s.handles[h].target in s.boxes
    ensures var box := s.boxes[s.handles[h].target];
            && box.frees == 0 && box.weak > 0
            && (s.handles[h].kind == Strong ==> box.phase == Live && box.strong > 0)
  {
    ReachableInv(s);
    HandleCounts(s, h);
  }

  /** Where `make_mut` returns without copying, the handle is alone. */
  lemma UniqueWhenCountedOne(s: State, h: HandleId, k: HandleId)
    requires Reachable(s) && h in s.handles && k in s.handles && s.handles[h].kind == Strong
    requires Known(s, h) && Target(s, h).strong == 1 && Target(s, h).weak == 1
    requires s.handles[k].target == s.handles[h].target
    ensures k == h
  {
    ReachableInv(s);
    var b := s.handles[h].target;
    assert BoxOk(s, b);
    if s.handles[k].kind == Strong {
      CountOne(s.handles, StrongTo(b), h, k);
    } else {
      CountPositive(s.handles, k, WeakTo(b));
      HandleCounts(s, h);
    }
  }

  lemma NewTarget(s: State, h: HandleId, b': BoxId)
    requires Inv(s) && Enabled(s, MakeMutSteal(h, b'))
    ensures var t := Next(s, MakeMutSteal(h, b'));
            forall k :: k in t.handles && t.handles[k].target == b' ==> k == h
  {
    hide BoxOk;
  }

  /** Where `make_mut` moves the value out, the handle is alone in the new box, and the old one is
      left to weak handles that will free it. */
  lemma StealIsSafe(s: State, h: HandleId, b': BoxId)
    requires Reachable(s) && Enabled(s, MakeMutSteal(h, b'))
    ensures var t, b := Next(s, MakeMutSteal(h, b')), s.handles[h].target;
            && (forall k :: k in t.handles && t.handles[k].target == b' ==> k == h)
            && t.boxes[b].strong == 0 && t.boxes[b].frees == 0 && t.boxes[b].weak == Weaks(t, b) > 0
  {
    hide Linked;
    var t := Next(s, MakeMutSteal(h, b'));
    ReachableInv(s);
    StepKeepsInv(s, MakeMutSteal(h, b'));
    HandleCounts(s, h);
    assert BoxOk(t, s.handles[h].target);
    hide BoxOk;
    NewTarget(s, h, b');
  }

  // -----------------------------------------------------------------------------------------
  // Dropping everything

  /** The steps of a recursive drop: outside handles, then the handles in the innermost value being
      destroyed, then its box, unless a destructor panics. */
  ghost predicate DropStep(s: State, step: Step) {
    && Enabled(s, step)
    && (step == FinishDestroying || step == DestroyPanics ||
        (step.Drop? && (s.handles[step.h].owner == Outside ||
                        (s.stack != [] && s.handles[step.h].owner == Inside(s.stack[|s.stack| - 1])))))
  }

  ghost predicate DropRun(s: State, steps: seq<Step>)
    ensures DropRun(s, steps) ==> Runs(s, steps)
    decreases |steps|
  {
    steps == [] || (DropStep(s, steps[0]) && DropRun(Next(s, steps[0]), steps[1..]))
  }

  /** What a drop has left to do. */
  ghost function Work(s: State): nat {
    2 * |s.handles| + |s.stack|
  }

  lemma DropShrinks(s: State, step: Step)
    requires DropStep(s, step)
    ensures Work(Next(s, step)) < Work(s)
  {
  }

  /** A recursive drop terminates, on any heap. */
  lemma {:induction false} DropTerminates(s: State, steps: seq<Step>)
    requires DropRun(s, steps)
    ensures |steps| <= Work(s)
    decreases |steps|
  {
    if steps != [] {
      DropShrinks(s, steps[0]);
      DropTerminates(Next(s, steps[0]), steps[1..]);
    }
  }

  /** It goes on as long as there is an outside handle or a value being destroyed. */
  lemma DropProgress(s: State)
    requires Inv(s) && s.builders == map[]
    requires s.stack != [] || exists h :: h in s.handles && s.handles[h].owner == Outside
    ensures exists step :: DropStep(s, step)
  {
    if h :| h in s.handles && s.handles[h].owner == Outside {
      assert DropStep(s, Drop(h));
    } else {
      var b := s.stack[|s.stack| - 1];
      if h :| h in s.handles && s.handles[h].owner == Inside(b) {
        assert DropStep(s, Drop(h));
      } else {
        assert DropStep(s, FinishDestroying);
      }
    }
  }

  /** The strong handles inside values form no cycle: they lead to boxes of smaller rank. */
  ghost predicate Acyclic(s: State, rank: BoxId -> nat) {
    forall h :: h in s.handles && s.handles[h].kind == Strong && s.handles[h].owner.Inside? ==>
      rank(s.handles[h].target) < rank(s.handles[h].owner.holder)
  }

  /** A box that is leaked in `t` was leaked in `s`. */
  ghost predicate NoNewLeak(s: State, t: State) {
    forall b :: b in t.boxes && t.boxes[b].phase == Leaked ==> b in s.boxes && s.boxes[b].phase == Leaked
  }

  /** Dropping adds no handle and no box. */
  lemma DropStepShape(s: State, step: Step)
    requires DropStep(s, step)
    ensures step != DestroyPanics ==> NoNewLeak(s, Next(s, step))
    ensures forall h :: h in Next(s, step).handles ==> h in s.handles && Next(s, step).handles[h] == s.handles[h]
    ensures Next(s, step).boxes.Keys == s.boxes.Keys && Next(s, step).builders == s.builders
  {
  }

  lemma {:induction false} DropKeepsShape(s: State, steps: seq<Step>, rank: BoxId -> nat)
    requires Acyclic(s, rank) && DropRun(s, steps)
    ensures DestroyPanics !in steps ==> NoNewLeak(s, Final(s, steps))
    ensures Acyclic(Final(s, steps), rank) && Final(s, steps).builders == s.builders
    ensures Final(s, steps).boxes.Keys == s.boxes.Keys
    decreases |steps|
  {
    if steps != [] {
      DropStepShape(s, steps[0]);
      hide Enabled, Next, DropStep;
      DropKeepsShape(Next(s, steps[0]), steps[1..], rank);
    }
  }

  /** A live box has a strong handle, outside or in a live value of higher rank. */
  lemma HigherHolder(s: State, rank: BoxId -> nat, b: BoxId) returns (h: HandleId)
    requires Inv(s) && Acyclic(s, rank) && s.stack == [] && b in s.boxes && s.boxes[b].phase == Live
    ensures h in s.handles && s.handles[h].kind == Strong && s.handles[h].target == b
    ensures s.handles[h].owner.Inside? ==>
              var c := s.handles[h].owner.holder;
              c in s.boxes && s.boxes[c].phase == Live && rank(c) > rank(b)
  {
    assert BoxOk(s, b);
    h := CountWitness(s.handles, StrongTo(b));
    if s.handles[h].owner.Inside? {
      assert BoxOk(s, s.handles[h].owner.holder);
    }
  }

  lemma {:induction false} NoneAlive(s: State, rank: BoxId -> nat, b: BoxId, above: set<BoxId>)
    requires Inv(s) && Acyclic(s, rank) && s.stack == [] && b in s.boxes
    requires forall h :: h in s.handles ==> s.handles[h].owner != Outside
    requires above <= s.boxes.Keys && forall c :: c in s.boxes && rank(c) > rank(b) ==> c in above
    ensures s.boxes[b].phase != Live
    decreases |above|
  {
    hide Inv, Acyclic;
    if s.boxes[b].phase == Live {
      var h := HigherHolder(s, rank, b);
      var c := s.handles[h].owner.holder;
      var higher := set d | d in above && rank(d) > rank(c);
      assert c !in higher && higher <= above - {c};
      SubsetSize(higher, above - {c});
      NoneAlive(s, rank, c, higher);
    }
  }

  /** On an acyclic heap, a drop that has run to its end has freed every box exactly once, except those
      that a panicking destructor leaked; without such a panic there are no new exceptions. */
  lemma DropFreesEverything(s: State, steps: seq<Step>, rank: BoxId -> nat)
    requires Reachable(s) && s.builders == map[] && Acyclic(s, rank) && DropRun(s, steps)
    requires forall step :: !DropStep(Final(s, steps), step)
    ensures var t := Final(s, steps);
            && t.boxes.Keys == s.boxes.Keys && t.handles == map[] && t.stack == []
            && (forall b :: b in t.boxes ==> t.boxes[b].frees == if t.boxes[b].phase == Leaked then 0 else 1)
            && (DestroyPanics !in steps ==> NoNewLeak(s, t))
  {
    ReachableInv(s);
    RunKeepsInv(s, steps);
    DropKeepsShape(s, steps, rank);
    var t := Final(s, steps);
    if t.stack != [] || exists h :: h in t.handles && t.handles[h].owner == Outside {
      DropProgress(t);
    }
    EverythingFreed(t, rank);
  }

  lemma EverythingFreed(t: State, rank: BoxId -> nat)
    requires Inv(t) && Acyclic(t, rank) && t.stack == [] && t.builders == map[]
    requires forall h :: h in t.handles ==> t.handles[h].owner != Outside
    ensures t.handles == map[]
    ensures forall b :: b in t.boxes ==> t.boxes[b].frees == if t.boxes[b].phase == Leaked then 0 else 1
  {
    forall b | b in t.boxes
      ensures t.boxes[b].phase != Live && t.boxes[b].phase != Dying
    {
      NoneAlive(t, rank, b, t.boxes.Keys);
      assert BoxOk(t, b);
    }
    assert t.handles == map[] by {
      assert forall h :: h in t.handles ==> Holds(t, t.handles[h].owner.holder);
    }
    forall b | b in t.boxes
      ensures t.boxes[b].frees == if t.boxes[b].phase == Leaked then 0 else 1
    {
      assert BoxOk(t, b);
      CountNone(t.handles, WeakTo(b));
    }
  }
}
