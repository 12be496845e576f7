/** What the calls of `Rc` and `Weak` answer and what they do to the handles, stated without counters:
    every answer depends only on which other handles to the same box exist, and every call touches
    only its own handle and the handles that a moved value takes along. */
module RcCalls {
  import opened Words
  import opened Counting
  import opened RcHeap

  /** `k` is another handle of the given kind to the box of `h`. */
  ghost predicate Other(s: State, h: HandleId, k: HandleId, kind: Kind) {
    && h in s.handles && k in s.handles && k != h
    && s.handles[k].target == s.handles[h].target && s.handles[k].kind == kind
  }

  lemma CountedOther(s: State, h: HandleId, kind: Kind)
    requires Inv(s) && h in s.handles
    ensures var b := s.handles[h].target;
            && b in s.boxes
            && var n := (if kind == Strong then Strongs(s, b) else Weaks(s, b));
               n - (if s.handles[h].kind == kind then 1 else 0) > 0 <==> exists k :: Other(s, h, k, kind)
  {
    hide BoxOk;
    var b := s.handles[h].target;
    var test := if kind == Strong then StrongTo(b) else WeakTo(b);
    CountRemove(s.handles, h, test);
    if Count(s.handles - {h}, test) > 0 {
      var k := CountWitness(s.handles - {h}, test);
      assert Other(s, h, k, kind);
    }
    if k :| Other(s, h, k, kind) { CountPositive(s.handles - {h}, k, test); }
  }

  lemma CountsAt(s: State, h: HandleId)
    requires Inv(s) && h in s.handles && s.handles[h].kind == Strong
    ensures Known(s, h) && Target(s, h).strong > 0
    ensures Target(s, h).strong == 1 <==> !exists k :: Other(s, h, k, Strong)
    ensures Target(s, h).weak == 1 <==> !exists k :: Other(s, h, k, Weak)
    ensures Target(s, h).weak > 0
  {
    hide Strongs, Weaks, Linked;
    LinkedParts(s);
    HandleCounts(s, h);
    CountedOther(s, h, Strong);
    CountedOther(s, h, Weak);
    assert BoxOk(s, s.handles[h].target);
  }

  /** `Weak::upgrade` succeeds if and only if a strong handle to the box exists. */
  lemma UpgradeAnswer(s: State, w: HandleId, h': HandleId)
    requires Reachable(s) && w in s.handles && s.handles[w].kind == Weak && h' !in s.handles
    requires Strongs(s, s.handles[w].target) < USIZE_MAX
    ensures Enabled(s, Upgrade(w, h')) <==> exists k :: Other(s, w, k, Strong)
  {
    hide Strongs, Weaks, Linked;
    ReachableInv(s);
    LinkedParts(s);
    CountedOther(s, w, Strong);
    assert BoxOk(s, s.handles[w].target);
  }

  /** `try_unwrap` succeeds if and only if no other strong handle exists. */
  lemma UnwrapAnswer(s: State, h: HandleId)
    requires Reachable(s) && h in s.handles && s.handles[h].kind == Strong && s.handles[h].owner == Outside
    ensures Enabled(s, TryUnwrap(h)) <==> !exists k :: Other(s, h, k, Strong)
  {
    hide Inv, Reachable;
    ReachableInv(s);
    CountsAt(s, h);
  }

  /** What `make_mut` does about sharing. */
  datatype Sharing = CloneValue | StealValue | InPlace

  function MakeMut(box: Box): Sharing {
    if box.strong != 1 then CloneValue
    else if Dec(box.weak) != 0 then StealValue
    else InPlace
  }

  predicate IsUnique(box: Box) {
    Dec(box.weak) == 0 && box.strong == 1
  }

  /** `make_mut` clones the value if and only if another strong handle exists, moves it if and only if
      there are weak handles but no other strong one, and leaves it in place if and only if there is no
      other handle at all, which is also when `get_mut` gives access. */
  lemma MakeMutAnswer(s: State, h: HandleId, b': BoxId)
    requires Reachable(s) && h in s.handles && s.handles[h].kind == Strong && b' !in s.boxes
    ensures Known(s, h)
    ensures MakeMut(Target(s, h)) == CloneValue <==> exists k :: Other(s, h, k, Strong)
    ensures MakeMut(Target(s, h)) == InPlace <==>
            !exists k, kind :: Other(s, h, k, kind)
    ensures IsUnique(Target(s, h)) <==> MakeMut(Target(s, h)) == InPlace
    ensures Enabled(s, MakeMutSteal(h, b')) <==> MakeMut(Target(s, h)) == StealValue
  {
    hide Inv, Reachable;
    ReachableInv(s);
    CountsAt(s, h);
    if k, kind :| Other(s, h, k, kind) { assert kind == Strong || kind == Weak; }
  }

  /** Whoever has a handle can clone it, give it away and drop it, and downgrade a strong one, short of
      the limits of the counters; only the handle that a `new_cyclic` keeps for itself stays put. */
  lemma CanCall(s: State, h: HandleId, h': HandleId, b: BoxId)
    requires Reachable(s) && h in s.handles && h' !in s.handles
    requires Known(s, h) ==> Target(s, h).strong < USIZE_MAX && Target(s, h).weak < USIZE_MAX
    ensures Enabled(s, Clone(h, h')) && (s.handles[h].kind == Strong ==> Enabled(s, Downgrade(h, h')))
    ensures (forall c :: c in s.builders ==> s.builders[c] != h) ==>
              Enabled(s, Drop(h)) && Enabled(s, Give(h, Outside)) && (Holds(s, b) ==> Enabled(s, Give(h, Inside(b))))
    ensures b !in s.boxes ==> Enabled(s, New(b, h')) && Enabled(s, NewCyclic(b, h'))
    ensures b in s.builders ==> Enabled(s, CyclicInit(b, h')) && Enabled(s, CyclicPanics(b))
  {
    hide Inv, Reachable;
    ReachableInv(s);
    InvKnown(s, h);
  }

  lemma InvKnown(s: State, h: HandleId)
    requires Inv(s) && h in s.handles
    ensures Known(s, h) && forall b :: b in s.builders ==> b in s.boxes
  {
    hide BoxOk;
  }

  // -----------------------------------------------------------------------------------------
  // What the calls do to the handles

  /** The value that a step moves elsewhere, if any. */
  ghost function MovedFrom(s: State, step: Step): set<BoxId> {
    if (step.TryUnwrap? || step.MakeMutSteal?) && step.h in s.handles then {s.handles[step.h].target} else {}
  }

  /** The handle that a step consumes. */
  ghost function Consumed(s: State, step: Step): set<HandleId> {
    if step.Drop? || step.TryUnwrap? then {step.h}
    else if step.CyclicInit? && step.b in s.builders then {s.builders[step.b]}
    else {}
  }

  /** The handle that a step makes. */
  ghost function Made(step: Step): set<HandleId> {
    match step
    case New(_, h) => {h}
    case Clone(_, h') => {h'}
    case Downgrade(_, h') => {h'}
    case Upgrade(_, h') => {h'}
    case NewCyclic(_, w) => {w}
    case CyclicInit(_, h) => {h}
    case _ => {}
  }

  /** A step makes and consumes only its own handles.  Every other handle keeps its kind and its
      target, and its holder unless that holder's value moved. */
  lemma HandlesAfter(s: State, step: Step)
    requires Enabled(s, step)
    ensures var t := Next(s, step);
            && t.handles.Keys == s.handles.Keys - Consumed(s, step) + Made(step)
            && (step.Give? ==> t.handles[step.h].owner == step.owner)
            && (forall k :: k in s.handles && k in t.handles && !(step.MakeMutSteal? && k == step.h) ==>
                  t.handles[k].kind == s.handles[k].kind && t.handles[k].target == s.handles[k].target)
            && (forall k :: k in s.handles && k in t.handles && !(step.Give? && k == step.h) ==>
                  || t.handles[k].owner == s.handles[k].owner
                  || (s.handles[k].owner.Inside? && s.handles[k].owner.holder in MovedFrom(s, step)))
  {
    hide Enabled, Next;
    HandlesThere(s, step);
    forall k | k in s.handles && k in Next(s, step).handles { HandleAfter(s, step, k); }
  }

  lemma HandlesThere(s: State, step: Step)
    requires Enabled(s, step)
    ensures Next(s, step).handles.Keys == s.handles.Keys - Consumed(s, step) + Made(step)
    ensures step.Give? ==> Next(s, step).handles[step.h].owner == step.owner
  {
  }

  lemma HandleAfter(s: State, step: Step, k: HandleId)
    requires Enabled(s, step) && k in s.handles && k in Next(s, step).handles
    ensures var t := Next(s, step);
            && (!(step.MakeMutSteal? && k == step.h) ==>
                  t.handles[k].kind == s.handles[k].kind && t.handles[k].target == s.handles[k].target)
            && (!(step.Give? && k == step.h) ==>
                  || t.handles[k].owner == s.handles[k].owner
                  || (s.handles[k].owner.Inside? && s.handles[k].owner.holder in MovedFrom(s, step)))
  {
  }

  /** A new handle has the kind that was asked for, leads to the box of the old one, and belongs to the
      caller. */
  lemma NewHandles(s: State, h: HandleId, h': HandleId)
    requires h in s.handles && h' !in s.handles
    ensures var b := s.handles[h].target;
            && (Enabled(s, Clone(h, h')) ==>
                  Next(s, Clone(h, h')).handles == s.handles[h' := Handle(s.handles[h].kind, b, Outside)])
            && (Enabled(s, Downgrade(h, h')) ==>
                  Next(s, Downgrade(h, h')).handles == s.handles[h' := Handle(Weak, b, Outside)])
            && (Enabled(s, Upgrade(h, h')) ==>
                  Next(s, Upgrade(h, h')).handles == s.handles[h' := Handle(Strong, b, Outside)])
  {
  }

  lemma NoneInside(s: State, b: BoxId)
    requires Inv(s) && b !in s.boxes
    ensures forall k :: k in s.handles ==> s.handles[k].owner != Inside(b)
  {
    hide BoxOk;
  }

  /** `make_mut` that moves the value: the handle leads to the new box, and exactly the handles that
      the value owned are owned by it there. */
  lemma StealTakesAll(s: State, h: HandleId, b': BoxId)
    requires Reachable(s) && Enabled(s, MakeMutSteal(h, b'))
    ensures var b, t := s.handles[h].target, Next(s, MakeMutSteal(h, b'));
            && t.handles.Keys == s.handles.Keys && t.handles[h].target == b' && t.handles[h].kind == Strong
            && (forall k :: k in s.handles ==>
                  && (t.handles[k].owner == Inside(b') <==> s.handles[k].owner == Inside(b))
                  && (s.handles[k].owner != Inside(b) ==> t.handles[k].owner == s.handles[k].owner))
  {
    hide Inv, Reachable;
    ReachableInv(s);
    NoneInside(s, b');
  }

  /** `try_unwrap`: exactly the handles that the value owned now belong to the caller, besides those
      that did already. */
  lemma UnwrapGivesAll(s: State, h: HandleId)
    requires Reachable(s) && Enabled(s, TryUnwrap(h))
    ensures var b, t := s.handles[h].target, Next(s, TryUnwrap(h));
            && t.handles.Keys == s.handles.Keys - {h}
            && (forall k :: k in t.handles ==>
                  && (t.handles[k].owner == Outside <==>
                        s.handles[k].owner == Outside || s.handles[k].owner == Inside(b))
                  && (s.handles[k].owner != Inside(b) ==> t.handles[k] == s.handles[k]))
  {
  }

  /** A new box has one handle, which is the caller's: strong for `Rc::new`, weak for `new_cyclic`.  At
      the end of `new_cyclic` a strong one takes the place of the weak one. */
  lemma NewBoxes(s: State, b: BoxId, h: HandleId)
    requires h !in s.handles
    ensures Enabled(s, New(b, h)) ==> Next(s, New(b, h)).handles == s.handles[h := Handle(Strong, b, Outside)]
    ensures Enabled(s, NewCyclic(b, h)) ==>
              Next(s, NewCyclic(b, h)).handles == s.handles[h := Handle(Weak, b, Outside)]
    ensures Enabled(s, CyclicInit(b, h)) ==>
              Next(s, CyclicInit(b, h)).handles == (s.handles - {s.builders[b]})[h := Handle(Strong, b, Outside)]
  {
  }

  /** The weak handle that a `new_cyclic` keeps for itself is an ordinary one as soon as its closure has
      panicked. */
  lemma CyclicEnds(s: State, b: BoxId, h: HandleId)
    ensures Enabled(s, NewCyclic(b, h)) ==> Next(s, NewCyclic(b, h)).builders == s.builders[b := h]
    ensures Enabled(s, CyclicInit(b, h)) ==> Next(s, CyclicInit(b, h)).builders == s.builders - {b}
    ensures Enabled(s, CyclicPanics(b)) ==> Next(s, CyclicPanics(b)) == s.(builders := s.builders - {b})
  {
  }

  /** The end of a destruction lets the box go on without its value; a panic leaks it. */
  lemma DestructionEnds(s: State)
    requires Emptied(s)
    ensures var b := s.stack[|s.stack| - 1];
            && Enabled(s, FinishDestroying) && Enabled(s, DestroyPanics)
            && Next(s, FinishDestroying).boxes[b].phase == Gone && Next(s, DestroyPanics).boxes[b].phase == Leaked
            && Next(s, FinishDestroying).handles == Next(s, DestroyPanics).handles == s.handles
  {
  }

  /** Dropping the last strong handle starts the destruction of the value, dropping another one does
      not, and a weak one never does. */
  lemma DropDestroysLast(s: State, h: HandleId)
    requires Reachable(s) && Enabled(s, Drop(h))
    ensures var b, t := s.handles[h].target, Next(s, Drop(h));
            && t.handles == s.handles - {h}
            && t.stack == if s.handles[h].kind == Strong && !exists k :: Other(s, h, k, Strong)
                          then s.stack + [b] else s.stack
  {
    hide Inv, Reachable;
    ReachableInv(s);
    if s.handles[h].kind == Strong { CountsAt(s, h); }
  }
}
