/** `RefCell`: the signed borrow counter, the guards that keep it, and the aliasing they guarantee.

    A reference into the cell covers a set of parts of the value.  Mapping narrows it, splitting
    divides it, leaking gives up the guard but keeps the reference. */
module BorrowFlag {
  import opened Words
  import opened Counting

  function WrappingAdd(a: int, b: int): int {
    var c := a + b;
    if c > ISIZE_MAX then c - 0x1_0000_0000_0000_0000 else if c < ISIZE_MIN then c + 0x1_0000_0000_0000_0000 else c
  }

  type Parts = iset<int>
  type RefId = nat

  /** A reference that exists: what it may do, where, and whether its guard has been forgotten. */
  datatype Reference = Reference(writes: bool, parts: Parts, leaked: bool)

  predicate Writes(r: Reference) { r.writes }
  predicate Reads(r: Reference) { !r.writes }

  // -----------------------------------------------------------------------------------------
  // The references that exist

  ghost function Readers(refs: map<RefId, Reference>): nat { Count(refs, Reads) }
  ghost function Writers(refs: map<RefId, Reference>): nat { Count(refs, Writes) }

  /** Readers and writers do not coexist, both stay within the range of the word, and a writer shares
      no part of the value with anyone. */
  ghost predicate Sound(refs: map<RefId, Reference>) {
    && (Readers(refs) == 0 || Writers(refs) == 0)
    && Readers(refs) <= ISIZE_MAX && Writers(refs) <= -ISIZE_MIN
    && Apart(refs)
  }

  ghost predicate Apart(refs: map<RefId, Reference>) {
    forall g, h :: g in refs && h in refs && g != h && refs[g].writes ==> refs[g].parts !! refs[h].parts
  }

  lemma NoneHeld(refs: map<RefId, Reference>)
    requires refs == map[]
    ensures Sound(refs) && Readers(refs) == 0 && Writers(refs) == 0
  {
    CountNone(refs, Reads);
    CountNone(refs, Writes);
  }

  /** A reader comes in where nobody writes. */
  lemma AdmitReader(refs: map<RefId, Reference>, id: RefId, r: Reference)
    requires Sound(refs) && id !in refs && !r.writes && Writers(refs) == 0 && Readers(refs) < ISIZE_MAX
    ensures Sound(refs[id := r]) && Readers(refs[id := r]) == Readers(refs) + 1 && Writers(refs[id := r]) == 0
  {
    Added(refs, id, r);
    NoWriter(refs);
  }

  /** A writer comes in with a part that nobody has. */
  lemma AdmitWriter(refs: map<RefId, Reference>, id: RefId, r: Reference)
    requires Sound(refs) && id !in refs && r.writes && Readers(refs) == 0 && Writers(refs) < -ISIZE_MIN
    requires forall g :: g in refs ==> refs[g].parts !! r.parts
    ensures Sound(refs[id := r]) && Writers(refs[id := r]) == Writers(refs) + 1 && Readers(refs[id := r]) == 0
  {
    Added(refs, id, r);
  }

  /** A reference is narrowed, or loses its guard. */
  lemma Change(refs: map<RefId, Reference>, g: RefId, r: Reference)
    requires Sound(refs) && g in refs && r.writes == refs[g].writes && r.parts <= refs[g].parts
    ensures Sound(refs[g := r]) && Readers(refs[g := r]) == Readers(refs) && Writers(refs[g := r]) == Writers(refs)
  {
    CountUpdate(refs, g, r, Reads);
    CountUpdate(refs, g, r, Writes);
  }

  lemma Discard(refs: map<RefId, Reference>, g: RefId)
    requires Sound(refs) && g in refs
    ensures Sound(refs - {g})
    ensures Readers(refs - {g}) == Readers(refs) - (if refs[g].writes then 0 else 1)
    ensures Writers(refs - {g}) == Writers(refs) - (if refs[g].writes then 1 else 0)
  {
    CountRemove(refs, g, Reads);
    CountRemove(refs, g, Writes);
  }

  /** Where one reader or one writer exists there is none of the other kind. */
  lemma Kind(refs: map<RefId, Reference>, g: RefId)
    requires Sound(refs) && g in refs
    ensures if refs[g].writes then Writers(refs) > 0 && Readers(refs) == 0 else Readers(refs) > 0 && Writers(refs) == 0
  {
    if refs[g].writes { CountPositive(refs, g, Writes); } else { CountPositive(refs, g, Reads); }
  }

  lemma Added(refs: map<RefId, Reference>, id: RefId, r: Reference)
    requires id !in refs
    ensures Count(refs[id := r], Reads) == Count(refs, Reads) + if r.writes then 0 else 1
    ensures Count(refs[id := r], Writes) == Count(refs, Writes) + if r.writes then 1 else 0
  {
    CountUpdate(refs, id, r, Reads);
    CountUpdate(refs, id, r, Writes);
  }

  lemma NoWriter(refs: map<RefId, Reference>)
    ensures Count(refs, Writes) == 0 ==> forall g :: g in refs ==> !refs[g].writes
  {
    forall g | g in refs && refs[g].writes
      ensures Count(refs, Writes) > 0
    {
      CountPositive(refs, g, Writes);
    }
  }

  lemma NoReference(refs: map<RefId, Reference>)
    requires Readers(refs) == 0 && Writers(refs) == 0
    ensures refs == map[]
  {
    if refs != map[] {
      var g :| g in refs;
      if refs[g].writes { CountPositive(refs, g, Writes); } else { CountPositive(refs, g, Reads); }
    }
  }

  /** A writer is divided in two disjoint ones. */
  lemma SplitParts(refs: map<RefId, Reference>, g: RefId, id: RefId, a: Parts, b: Parts)
    requires Sound(refs) && g in refs && refs[g].writes && id !in refs && Writers(refs) < -ISIZE_MIN
    requires a <= refs[g].parts && b <= refs[g].parts && a !! b
    ensures var t := refs[id := refs[g].(parts := a)][g := refs[g].(parts := b)];
            Sound(t) && Writers(t) == Writers(refs) + 1 && Readers(t) == 0
  {
    hide Readers, Writers;
    var narrowed := refs[g := refs[g].(parts := b)];
    Kind(refs, g);
    Change(refs, g, refs[g].(parts := b));
    forall h | h in narrowed
      ensures narrowed[h].parts !! a
    {
      if h != g { assert refs[g].parts !! refs[h].parts; }
    }
    AdmitWriter(narrowed, id, refs[g].(parts := a));
    assert refs[id := refs[g].(parts := a)][g := refs[g].(parts := b)] == narrowed[id := refs[g].(parts := a)];
  }

  // -----------------------------------------------------------------------------------------
  // The cell

  class RefCell {
    var flag: int
    ghost var refs: map<RefId, Reference>   // live and leaked, since the last reset

    /** The flag counts the readers, or the writers below zero. */
    ghost predicate Valid()
      reads this
    {
      Sound(refs) && flag == Readers(refs) - Writers(refs)
    }

    constructor ()
      ensures Valid() && refs == map[]
    {
      flag, refs := 0, map[];
      NoneHeld(map[]);
    }

    /** `BorrowRef::new`, under `try_borrow`. */
    method TryBorrow(ghost id: RefId, ghost all: Parts) returns (ok: bool)
      requires Valid() && id !in refs
      modifies this
      ensures Valid()
      ensures ok <==> Writers(old(refs)) == 0 && Readers(old(refs)) < ISIZE_MAX
      ensures refs == if ok then old(refs)[id := Reference(false, all, false)] else old(refs)
    {
      hide Readers, Writers, Apart;
      var b := WrappingAdd(flag, 1);
      ok := b > 0;
      if ok {
        AdmitReader(refs, id, Reference(false, all, false));
        flag := b;
        refs := refs[id := Reference(false, all, false)];
      }
    }

    /** `BorrowRefMut::new`, under `try_borrow_mut`. */
    method TryBorrowMut(ghost id: RefId, ghost all: Parts) returns (ok: bool)
      requires Valid() && id !in refs
      modifies this
      ensures Valid()
      ensures ok <==> old(refs) == map[]
      ensures refs == if ok then map[id := Reference(true, all, false)] else old(refs)
    {
      hide Readers, Writers, Apart;
      ok := flag == 0;
      if ok {
        NoReference(refs);
        AdmitWriter(refs, id, Reference(true, all, false));
        flag := -1;
        refs := refs[id := Reference(true, all, false)];
      } else if refs == map[] {
        NoneHeld(refs);
        assert false;
      }
    }

    /** `Ref::clone`; `false` is the panic at the end of the range. */
    method CloneRef(ghost g: RefId, ghost id: RefId) returns (ok: bool)
      requires Valid() && g in refs && !refs[g].writes && !refs[g].leaked && id !in refs
      modifies this
      ensures Valid()
      ensures ok <==> Readers(old(refs)) < ISIZE_MAX
      ensures refs == if ok then old(refs)[id := old(refs)[g]] else old(refs)
    {
      hide Readers, Writers, Apart;
      Kind(refs, g);
      ok := flag != ISIZE_MAX;
      if ok {
        AdmitReader(refs, id, refs[g]);
        flag := flag + 1;
        refs := refs[id := refs[g]];
      }
    }

    /** `Ref::map_split`: the guard is divided in two; on a panic it is dropped. */
    method SplitRef(ghost g: RefId, ghost id: RefId, ghost a: Parts, ghost b: Parts) returns (ok: bool)
      requires Valid() && g in refs && !refs[g].writes && !refs[g].leaked && id !in refs
      requires a <= refs[g].parts && b <= refs[g].parts
      modifies this
      ensures Valid()
      ensures ok <==> Readers(old(refs)) < ISIZE_MAX
      ensures ok ==> refs == old(refs)[id := Reference(false, a, false)][g := Reference(false, b, false)]
      ensures !ok ==> refs == old(refs) - {g}
    {
      hide Sound;
      ok := CloneRef(g, id);
      if !ok {
        DropReader(g);
        return;
      }
      Narrow(id, a);
      Narrow(g, b);
    }

    /** `RefMut::map_split`: the closure returns two references, which cannot overlap. */
    method SplitMut(ghost g: RefId, ghost id: RefId, ghost a: Parts, ghost b: Parts) returns (ok: bool)
      requires Valid() && g in refs && refs[g].writes && !refs[g].leaked && id !in refs
      requires a <= refs[g].parts && b <= refs[g].parts && a !! b
      modifies this
      ensures Valid()
      ensures ok <==> Writers(old(refs)) < -ISIZE_MIN
      ensures ok ==> refs == old(refs)[id := Reference(true, a, false)][g := Reference(true, b, false)]
      ensures !ok ==> refs == old(refs) - {g}
    {
      hide Readers, Writers;
      Kind(refs, g);
      ok := flag != ISIZE_MIN;
      if !ok {
        DropWriter(g);
        return;
      }
      SplitParts(refs, g, id, a, b);
      flag := flag - 1;
      refs := refs[id := Reference(true, a, false)][g := Reference(true, b, false)];
    }

    /** `Ref::map` and `RefMut::map`: the counter is not touched. */
    ghost method Narrow(g: RefId, parts: Parts)
      requires Valid() && g in refs && parts <= refs[g].parts
      modifies this`refs
      ensures Valid() && refs == old(refs)[g := old(refs)[g].(parts := parts)]
    {
      hide Sound, Readers, Writers;
      Change(refs, g, refs[g].(parts := parts));
      refs := refs[g := refs[g].(parts := parts)];
    }

    /** `BorrowRef::drop`. */
    method DropReader(ghost g: RefId)
      requires Valid() && g in refs && !refs[g].writes && !refs[g].leaked
      modifies this
      ensures Valid() && refs == old(refs) - {g}
    {
      hide Readers, Writers, Apart;
      Kind(refs, g);
      assert flag > 0;
      Discard(refs, g);
      flag := flag - 1;
      refs := refs - {g};
    }

    /** `BorrowRefMut::drop`. */
    method DropWriter(ghost g: RefId)
      requires Valid() && g in refs && refs[g].writes && !refs[g].leaked
      modifies this
      ensures Valid() && refs == old(refs) - {g}
    {
      hide Readers, Writers, Apart;
      Kind(refs, g);
      assert flag < 0;
      Discard(refs, g);
      flag := flag + 1;
      refs := refs - {g};
    }

    /** `Ref::leak` and `RefMut::leak`: the reference outlives its guard, which stays counted. */
    ghost method Leak(g: RefId)
      requires Valid() && g in refs && !refs[g].leaked
      modifies this`refs
      ensures Valid() && refs == old(refs)[g := old(refs)[g].(leaked := true)]
    {
      hide Sound, Readers, Writers;
      Change(refs, g, refs[g].(leaked := true));
      refs := refs[g := refs[g].(leaked := true)];
    }

    /** `undo_leak`: having `&mut self` means that no guard is live and leaked references have ended. */
    method UndoLeak()
      requires Valid() && forall g :: g in refs ==> refs[g].leaked
      modifies this
      ensures Valid() && refs == map[] && flag == 0
    {
      flag := 0;
      refs := map[];
      NoneHeld(map[]);
    }
  }

  // -----------------------------------------------------------------------------------------
  // Runs

  /** What a client may do next.  New references are numbered; `g` names a guard, and a request for
      one that does not exist is skipped. */
  datatype Request =
    | Borrow
    | BorrowMut
    | Clone(g: RefId)
    | Map(g: RefId, parts: Parts)
    | MapSplit(g: RefId, a: Parts, b: Parts)
    | Drop(g: RefId)
    | Leak(g: RefId)
    | UndoLeak

  /** The references that exist, and the number of the next one. */
  datatype Held = Held(refs: map<RefId, Reference>, next: RefId)

  ghost predicate Guarded(refs: map<RefId, Reference>, g: RefId) {
    g in refs && !refs[g].leaked
  }

  /** Whether one more reference of the kind of `r` fits the word. */
  ghost predicate Room(refs: map<RefId, Reference>, r: Reference) {
    if r.writes then Writers(refs) < -ISIZE_MIN else Readers(refs) < ISIZE_MAX
  }

  /** What a closure given to `map_split` makes of the parts it was asked for: pieces of the
      original, and disjoint ones if they are mutable. */
  ghost function FirstPart(r: Reference, a: Parts): Parts { a * r.parts }
  ghost function SecondPart(r: Reference, a: Parts, b: Parts): Parts {
    (if r.writes then b - a else b) * r.parts
  }

  /** The meaning of a request in terms of references, without a counter. */
  ghost function After(all: Parts, s: Held, q: Request): Held {
    match q
    case Borrow =>
      if Writers(s.refs) == 0 && Readers(s.refs) < ISIZE_MAX
      then Held(s.refs[s.next := Reference(false, all, false)], s.next + 1) else s
    case BorrowMut =>
      if s.refs == map[] then Held(map[s.next := Reference(true, all, false)], s.next + 1) else s
    case Clone(g) =>
      if Guarded(s.refs, g) && !s.refs[g].writes && Room(s.refs, s.refs[g])
      then Held(s.refs[s.next := s.refs[g]], s.next + 1) else s
    case Map(g, parts) =>
      if Guarded(s.refs, g)
      then s.(refs := s.refs[g := s.refs[g].(parts := parts * s.refs[g].parts)]) else s
    case MapSplit(g, a, b) =>
      if !Guarded(s.refs, g) then s
      else
        var r := s.refs[g];
        if Room(s.refs, r)
        then Held(s.refs[s.next := r.(parts := FirstPart(r, a))][g := r.(parts := SecondPart(r, a, b))], s.next + 1)
        else s.(refs := s.refs - {g})
    case Drop(g) => if Guarded(s.refs, g) then s.(refs := s.refs - {g}) else s
    case Leak(g) => if Guarded(s.refs, g) then s.(refs := s.refs[g := s.refs[g].(leaked := true)]) else s
    case UndoLeak => if forall g :: g in s.refs ==> s.refs[g].leaked then s.(refs := map[]) else s
  }

  ghost function AfterAll(all: Parts, s: Held, requests: seq<Request>): Held {
    if requests == [] then s
    else After(all, AfterAll(all, s, requests[..|requests| - 1]), requests[|requests| - 1])
  }

  /** The guards a client has in hand, and whether each of them writes. */
  ghost predicate InHand(refs: map<RefId, Reference>, guards: map<RefId, bool>, next: RefId) {
    && (forall g :: g in refs ==> g < next)
    && (forall g :: g in guards <==> Guarded(refs, g))
    && (forall g :: g in guards ==> guards[g] == refs[g].writes)
  }

  method PerformSplit(cell: RefCell, guards: map<RefId, bool>, next: RefId, g: RefId, a: Parts, b: Parts,
                      ghost all: Parts)
    returns (guards': map<RefId, bool>, next': RefId)
    requires cell.Valid() && InHand(cell.refs, guards, next) && g in guards
    modifies cell
    ensures cell.Valid() && InHand(cell.refs, guards', next')
    ensures Held(cell.refs, next') == After(all, Held(old(cell.refs), next), MapSplit(g, a, b))
  {
    hide Sound, Readers, Writers;
    ghost var r := cell.refs[g];
    var ok;
    if guards[g] {
      ok := cell.SplitMut(g, next, FirstPart(r, a), SecondPart(r, a, b));
    } else {
      ok := cell.SplitRef(g, next, FirstPart(r, a), SecondPart(r, a, b));
    }
    if ok {
      guards', next' := guards[next := guards[g]], next + 1;
    } else {
      guards', next' := guards - {g}, next;
    }
  }

  /** A request about a guard that exists. */
  method PerformGuarded(cell: RefCell, guards: map<RefId, bool>, next: RefId, q: Request, ghost all: Parts)
    returns (guards': map<RefId, bool>, next': RefId)
    requires cell.Valid() && InHand(cell.refs, guards, next)
    requires (q.Clone? || q.Map? || q.Drop? || q.Leak?) && q.g in guards
    modifies cell
    ensures cell.Valid() && InHand(cell.refs, guards', next')
    ensures Held(cell.refs, next') == After(all, Held(old(cell.refs), next), q)
  {
    hide Sound, Readers, Writers;
    guards', next' := guards, next;
    match q
    case Clone(g) =>
      if !guards[g] {
        var ok := cell.CloneRef(g, next);
        if ok { guards', next' := guards[next := false], next + 1; }
      }
    case Map(g, parts) =>
      cell.Narrow(g, parts * cell.refs[g].parts);
    case Drop(g) =>
      if guards[g] { cell.DropWriter(g); } else { cell.DropReader(g); }
      guards' := guards - {g};
    case Leak(g) =>
      cell.Leak(g);
      guards' := guards - {g};
  }

  /** One request of a client. */
  method Perform(cell: RefCell, guards: map<RefId, bool>, next: RefId, q: Request, ghost all: Parts)
    returns (guards': map<RefId, bool>, next': RefId)
    requires cell.Valid() && InHand(cell.refs, guards, next)
    modifies cell
    ensures cell.Valid() && InHand(cell.refs, guards', next')
    ensures Held(cell.refs, next') == After(all, Held(old(cell.refs), next), q)
  {
    hide Sound, Readers, Writers;
    guards', next' := guards, next;
    match q
    case Borrow =>
      var ok := cell.TryBorrow(next, all);
      if ok { guards', next' := guards[next := false], next + 1; }
    case BorrowMut =>
      var ok := cell.TryBorrowMut(next, all);
      if ok { guards', next' := map[next := true], next + 1; }
    case UndoLeak =>
      if guards == map[] { cell.UndoLeak(); }
    case MapSplit(g, a, b) =>
      if g in guards { guards', next' := PerformSplit(cell, guards, next, g, a, b, all); }
    case _ =>
      if q.g in guards { guards', next' := PerformGuarded(cell, guards, next, q, all); }
  }

  /** Every run of a client on a new cell: the references are the ones the requests mean, the flag
      counts them, readers and writers never coexist, the word never overflows, and no part that
      someone can write is visible to anyone else. */
  method Run(requests: seq<Request>, ghost all: Parts) returns (cell: RefCell)
    ensures cell.refs == AfterAll(all, Held(map[], 0), requests).refs
    ensures cell.flag == Readers(cell.refs) - Writers(cell.refs) && ISIZE_MIN <= cell.flag <= ISIZE_MAX
    ensures Readers(cell.refs) == 0 || Writers(cell.refs) == 0
    ensures forall g, h :: g in cell.refs && h in cell.refs && g != h && cell.refs[g].writes ==>
              cell.refs[h].writes && cell.refs[g].parts !! cell.refs[h].parts
  {
    hide Sound, Readers, Writers, After;
    cell := new RefCell();
    var guards: map<RefId, bool>, next: RefId := map[], 0;
    for i := 0 to |requests|
      invariant cell.Valid() && InHand(cell.refs, guards, next) && fresh(cell)
      invariant Held(cell.refs, next) == AfterAll(all, Held(map[], 0), requests[..i])
    {
      guards, next := Perform(cell, guards, next, requests[i], all);
      assert requests[..i + 1][..i] == requests[..i];
    }
    assert requests[..|requests|] == requests;
    SoundMeans(cell.refs);
  }

  lemma SoundMeans(refs: map<RefId, Reference>)
    requires Sound(refs)
    ensures Readers(refs) == 0 || Writers(refs) == 0
    ensures Readers(refs) <= ISIZE_MAX && Writers(refs) <= -ISIZE_MIN
    ensures forall g, h :: g in refs && h in refs && g != h && refs[g].writes ==>
              refs[h].writes && refs[g].parts !! refs[h].parts
  {
    forall g, h | g in refs && h in refs && g != h && refs[g].writes
      ensures refs[h].writes
    {
      Kind(refs, g);
      Kind(refs, h);
    }
  }

  // -----------------------------------------------------------------------------------------
  // Aliasing xor mutation

  /** A reference of either kind is divided in two. */
  lemma SplitSound(refs: map<RefId, Reference>, g: RefId, id: RefId, a: Parts, b: Parts)
    requires Sound(refs) && g in refs && id !in refs && Room(refs, refs[g])
    requires a <= refs[g].parts && b <= refs[g].parts && (refs[g].writes ==> a !! b)
    ensures Sound(refs[id := refs[g].(parts := a)][g := refs[g].(parts := b)])
  {
    hide Sound, Readers, Writers;
    Kind(refs, g);
    if refs[g].writes {
      SplitParts(refs, g, id, a, b);
    } else {
      AdmitReader(refs, id, refs[g].(parts := a));
      Change(refs[id := refs[g].(parts := a)], g, refs[g].(parts := b));
    }
  }

  lemma AfterSound(all: Parts, s: Held, q: Request)
    requires Sound(s.refs) && forall g :: g in s.refs ==> g < s.next
    ensures Sound(After(all, s, q).refs)
    ensures forall g :: g in After(all, s, q).refs ==> g < After(all, s, q).next
  {
    hide Sound, Readers, Writers;
    match q
    case Borrow => if After(all, s, q) != s { AdmitReader(s.refs, s.next, Reference(false, all, false)); }
    case BorrowMut =>
      if s.refs == map[] {
        NoneHeld(s.refs);
        AdmitWriter(s.refs, s.next, Reference(true, all, false));
        assert map[s.next := Reference(true, all, false)] == s.refs[s.next := Reference(true, all, false)];
      }
    case Clone(g) =>
      if After(all, s, q) != s {
        Kind(s.refs, g);
        AdmitReader(s.refs, s.next, s.refs[g]);
      }
    case Map(g, parts) =>
      if Guarded(s.refs, g) { Change(s.refs, g, s.refs[g].(parts := parts * s.refs[g].parts)); }
    case MapSplit(g, a, b) =>
      if Guarded(s.refs, g) {
        var r := s.refs[g];
        if Room(s.refs, r) {
          SplitSound(s.refs, g, s.next, FirstPart(r, a), SecondPart(r, a, b));
        } else {
          Discard(s.refs, g);
        }
      }
    case Drop(g) => if Guarded(s.refs, g) { Discard(s.refs, g); }
    case Leak(g) => if Guarded(s.refs, g) { Change(s.refs, g, s.refs[g].(leaked := true)); }
    case UndoLeak => NoneHeld(map[]);
  }

  lemma {:induction false} AfterAllSound(all: Parts, requests: seq<Request>)
    ensures var t := AfterAll(all, Held(map[], 0), requests);
            Sound(t.refs) && forall g :: g in t.refs ==> g < t.next
  {
    hide Sound, After;
    if requests == [] {
      NoneHeld(map[]);
    } else {
      var before := requests[..|requests| - 1];
      AfterAllSound(all, before);
      AfterSound(all, AfterAll(all, Held(map[], 0), before), requests[|requests| - 1]);
    }
  }

  /** After any requests: whenever a mutable reference exists, no other reference overlaps it, and all
      others write too. */
  lemma AliasingXorMutation(all: Parts, requests: seq<Request>, g: RefId, h: RefId)
    requires var refs := AfterAll(all, Held(map[], 0), requests).refs;
             g in refs && h in refs && g != h && refs[g].writes
    ensures var refs := AfterAll(all, Held(map[], 0), requests).refs;
            refs[h].writes && refs[g].parts !! refs[h].parts
  {
    hide AfterAll;
    AfterAllSound(all, requests);
    SoundMeans(AfterAll(all, Held(map[], 0), requests).refs);
  }

  // -----------------------------------------------------------------------------------------
  // What requests are granted, and what they give

  /** All references count as readers or as writers. */
  lemma AllCounted(refs: map<RefId, Reference>)
    requires Sound(refs)
    ensures |refs| == Readers(refs) + Writers(refs)
    ensures Writers(refs) == 0 <==> forall g :: g in refs ==> !refs[g].writes
  {
    var r, w := Matching(refs, Reads), Matching(refs, Writes);
    assert r + w == refs.Keys && r !! w;
    assert |r + w| == |r| + |w|;
    NoWriter(refs);
    if forall g :: g in refs ==> !refs[g].writes { CountNone(refs, Writes); }
  }

  /** Exactly which requests for a reference are granted, in terms of the references that exist. */
  lemma GrantedIff(all: Parts, s: Held, g: RefId, a: Parts, b: Parts)
    requires Sound(s.refs)
    ensures After(all, s, Borrow).next > s.next <==>
            (forall h :: h in s.refs ==> !s.refs[h].writes) && |s.refs| < ISIZE_MAX
    ensures After(all, s, BorrowMut).next > s.next <==> s.refs == map[]
    ensures After(all, s, Clone(g)).next > s.next <==>
            g in s.refs && !s.refs[g].leaked && !s.refs[g].writes && |s.refs| < ISIZE_MAX
    ensures After(all, s, MapSplit(g, a, b)).next > s.next <==>
            g in s.refs && !s.refs[g].leaked && |s.refs| < if s.refs[g].writes then -ISIZE_MIN else ISIZE_MAX
  {
    hide Sound, Readers, Writers;
    AllCounted(s.refs);
    if g in s.refs { Kind(s.refs, g); }
  }

  /** A reference that is granted covers what was asked for, and dropping it takes everything back. */
  lemma DropUndoes(all: Parts, s: Held, q: Request)
    requires s.next !in s.refs && (q.Borrow? || q.BorrowMut? || q.Clone?) && After(all, s, q).next > s.next
    ensures var t := After(all, s, q);
            && s.next in t.refs && !t.refs[s.next].leaked && t.refs[s.next].writes == q.BorrowMut?
            && t.refs[s.next].parts == (if q.Clone? then s.refs[q.g].parts else all)
            && After(all, t, Drop(s.next)).refs == s.refs
  {
    hide Readers, Writers;
    var t := After(all, s, q);
    assert t.refs - {s.next} == s.refs;
  }

  /** A reference divided by `map_split` becomes two of the same kind, inside the old one; together
      they cover what was asked for, and apart from them nothing changes. */
  lemma SplitGives(all: Parts, s: Held, g: RefId, a: Parts, b: Parts)
    requires s.next !in s.refs && After(all, s, MapSplit(g, a, b)).next > s.next
    ensures var t, r := After(all, s, MapSplit(g, a, b)), s.refs[g];
            && g in t.refs && s.next in t.refs && t.refs - {g, s.next} == s.refs - {g}
            && t.refs[g].writes == t.refs[s.next].writes == r.writes && !t.refs[g].leaked && !t.refs[s.next].leaked
            && t.refs[g].parts + t.refs[s.next].parts == (a + b) * r.parts
            && t.refs[s.next].parts == a * r.parts
            && (!r.writes ==> t.refs[g].parts == b * r.parts)
            && (r.writes ==> t.refs[g].parts !! t.refs[s.next].parts)
  {
    hide Readers, Writers;
  }

  /** A guard given up by `Leak` cannot be dropped any more; its reference stays until `undo_leak`,
      which clears the references exactly when no guard is left. */
  lemma LeakStays(all: Parts, s: Held, g: RefId)
    requires g in s.refs && !s.refs[g].leaked
    ensures var t := After(all, s, Leak(g));
            && t.refs.Keys == s.refs.Keys && t.refs[g] == s.refs[g].(leaked := true)
            && After(all, t, Drop(g)) == t && After(all, t, Map(g, all)) == t
            && (After(all, t, UndoLeak).refs == map[] <==> forall h :: h in t.refs ==> t.refs[h].leaked)
            && (forall h :: h in s.refs && h != g ==> t.refs[h] == s.refs[h])
    ensures After(all, s, UndoLeak) == s && After(all, s, Drop(g)).refs == s.refs - {g}
    ensures After(all, s, Map(g, all)).refs == s.refs[g := s.refs[g].(parts := all * s.refs[g].parts)]
  {
  }
}
