/** `RawVec` over `Global`: the capacity arithmetic of growth on machine words, and the life of the
    block behind it. */
module RawVecModel {
  import opened Wrappers
  import opened GlobalAlloc

  /** `Result<(), TryReserveError>`. */
  datatype Outcome = Ok | CapacityOverflow | AllocError(layout: Layout)

  function WrappingSub(w: Word, a: nat, b: nat): (r: nat)
    requires a <= UsizeMax(w) && b <= UsizeMax(w)
  {
    if b <= a then a - b else a + UsizeMax(w) + 1 - b
  }

  /** The smallest capacity worth allocating, by element size. */
  function MinNonZeroCap(elemSize: nat): nat {
    if elemSize == 1 then 8 else if elemSize <= 1024 then 4 else 1
  }

  function Max(a: nat, b: nat): nat {
    if a < b then b else a
  }

  /** The capacity `grow_amortized` asks for. */
  function AmortizedCap(cap: nat, required: nat, elemSize: nat): nat {
    Max(MinNonZeroCap(elemSize), Max(cap * 2, required))
  }

  /** The checks on a new capacity that fail before the allocator is asked: `Layout::array`, and
      `alloc_guard` on words of less than 64 bits. */
  predicate Overflows(w: Word, elemSize: nat, cap: nat) {
    elemSize * cap > UsizeMax(w) || (w != W64 && elemSize * cap > IsizeMax(w))
  }

  /** The most bytes that a request may ask the allocator for; a 64-bit word leaves it to the allocator
      to refuse more than `isize::MAX`. */
  lemma OverflowsAbove(w: Word, elemSize: nat, cap: nat)
    ensures Overflows(w, elemSize, cap) <==>
            elemSize * cap > (match w case W16 => 0x7FFF case W32 => 0x7FFF_FFFF case W64 => 0xFFFF_FFFF_FFFF_FFFF)
    ensures Overflows(w, elemSize, cap) ==> elemSize * cap > IsizeMax(w)
  {
  }

  /** The amortised capacity is the least one that doubles the old one, suffices, and is worth
      allocating: 8 for bytes, 4 for elements of up to 1 KiB. */
  lemma AmortizedLeast(cap: nat, required: nat, elemSize: nat, n: nat)
    ensures AmortizedCap(cap, required, elemSize) <= n <==>
            && cap * 2 <= n && required <= n && 1 <= n
            && (elemSize == 1 ==> 8 <= n) && (elemSize != 1 && elemSize <= 1024 ==> 4 <= n)
  {
  }

  /** The bytes of `n` elements. */
  function ArraySize(elemSize: nat, n: nat): nat {
    elemSize * n
  }

  class RawVec {
    const mem: Memory
    const elemSize: nat
    const align: nat
    var ptr: Pointer
    var cap: nat

    function Current(): Layout
      reads this
    {
      Layout(ArraySize(elemSize, cap), align)
    }

    /** The block behind the pointer has exactly the layout the capacity stands for. */
    ghost predicate Valid()
      reads this, mem
    {
      && mem.Valid() && elemSize <= IsizeMax(mem.word)
      && (elemSize == 0 ==> cap == 0)
      && cap <= IsizeMax(mem.word) && Current().size <= IsizeMax(mem.word)
      && Owns(mem, ptr, Current())
    }

    /** `RawVec::new`: nothing is allocated. */
    constructor (mem: Memory, elemSize: nat, align: nat)
      requires mem.Valid() && elemSize <= IsizeMax(mem.word)
      ensures this.mem == mem && this.elemSize == elemSize && this.align == align
      ensures Valid() && cap == 0 && Addr(ptr, Current()) == {}
    {
      this.mem, this.elemSize, this.align := mem, elemSize, align;
      ptr, cap := Dangling, 0;
    }

    function Capacity(): nat
      reads this
    {
      if elemSize == 0 then UsizeMax(mem.word) else cap
    }

    predicate NeedsToGrow(len: nat, additional: nat)
      requires len <= UsizeMax(mem.word) && Capacity() <= UsizeMax(mem.word)
      reads this
    {
      additional > WrappingSub(mem.word, Capacity(), len)
    }

    /** `current_memory`: the block, if there is one. */
    function CurrentMemory(): Option<(Pointer, Layout)>
      reads this
    {
      if elemSize == 0 || cap == 0 then None else Some((ptr, Current()))
    }

    /** The memory of everybody else. */
    ghost function Others(): map<nat, Block>
      requires Valid()
      reads this, mem
    {
      mem.blocks - Addr(ptr, Current())
    }

    ghost function Contents(): seq<Byte>
      requires Valid()
      reads this, mem
    {
      Bytes(mem, ptr, Current())
    }

    /** The allocation in `finish_grow`: a larger block in place of the current one, if there is one. */
    method Obtain(layout: Layout) returns (p: Option<Pointer>)
      requires Valid() && Current().size <= layout.size && layout.align == align
      modifies mem`requests, mem`next, mem`blocks, mem`freed
      ensures mem.Valid() && (p.None? <==> layout.size > 0 && old(mem.Refuses(layout.size)))
      ensures p.None? ==> mem.blocks == old(mem.blocks) && mem.freed == old(mem.freed)
      ensures p.Some? ==> layout.size <= IsizeMax(mem.word) && Resizes(mem, ptr, Current(), p.value, layout)
    {
      hide Resized, Fill, IsizeMax, Memory.Refuses;
      var memory := CurrentMemory();
      if memory.Some? {
        p := Grow(mem, memory.value.0, memory.value.1, layout, false);
      } else {
        assert elemSize * cap == 0;
        p := Allocate(mem, layout, false);
      }
    }

    /** `set_ptr`: the capacity is recovered from the size of the block. */
    method SetPtr(p: Pointer, layout: Layout, ghost n: nat)
      requires elemSize > 0 && layout.align == align && layout.size == ArraySize(elemSize, n)
      modifies this`ptr, this`cap
      ensures ptr == p && cap == n && Current() == layout
    {
      SizeRecovered(elemSize, n);
      ptr, cap := p, layout.size / elemSize;
    }

    lemma Larger(newCap: nat)
      requires elemSize > 0 && cap < newCap
      ensures Current().size < ArraySize(elemSize, newCap) && newCap <= ArraySize(elemSize, newCap)
    {
      SizeGrows(elemSize, cap, newCap);
    }

    /** Allocates or grows to `newCap` elements, as `finish_grow` and `set_ptr` do. */
    method FinishGrow(newCap: nat) returns (r: Outcome)
      requires Valid() && elemSize > 0 && cap < newCap <= UsizeMax(mem.word)
      modifies this`ptr, this`cap, mem`requests, mem`next, mem`blocks, mem`freed
      ensures Valid() && Others() == old(Others())
      ensures r == CapacityOverflow <==> Overflows(mem.word, elemSize, newCap)
      ensures r == Ok <==> !old(mem.Refuses(ArraySize(elemSize, newCap)))
      ensures r.AllocError? ==> r.layout == Layout(ArraySize(elemSize, newCap), align)
      ensures r == Ok ==> cap == newCap && old(Contents()) <= Contents()
      ensures old(mem.freed) <= mem.freed
      ensures r != Ok ==> unchanged(this) && mem.blocks == old(mem.blocks) && mem.freed == old(mem.freed)
    {
      hide RawVec.Current, Overflows, IsizeMax, ArraySize, Memory.Refuses;
      RefusesOverflow(mem, elemSize, newCap);
      if Overflows(mem.word, elemSize, newCap) {
        return CapacityOverflow;
      }
      var layout := Layout(ArraySize(elemSize, newCap), align);
      assert Current().size < layout.size && newCap <= layout.size by { Larger(newCap); }
      var p := Obtain(layout);
      if p.None? {
        return AllocError(layout);
      }
      SetPtr(p.value, layout, newCap);
      r := Ok;
    }

    /** `grow_amortized`. */
    method GrowAmortized(len: nat, additional: nat) returns (r: Outcome)
      requires Valid() && len <= UsizeMax(mem.word) && 0 < additional <= UsizeMax(mem.word)
      requires NeedsToGrow(len, additional)
      modifies this`ptr, this`cap, mem`requests, mem`next, mem`blocks, mem`freed
      ensures Valid() && Others() == old(Others()) && old(mem.freed) <= mem.freed
      ensures r == CapacityOverflow <==>
                || elemSize == 0 || len + additional > UsizeMax(mem.word)
                || Overflows(mem.word, elemSize, AmortizedCap(old(cap), len + additional, elemSize))
      ensures r == Ok <==>
                && elemSize > 0 && len + additional <= UsizeMax(mem.word)
                && !old(mem.Refuses(ArraySize(elemSize, AmortizedCap(cap, len + additional, elemSize))))
      ensures r == Ok ==> cap == AmortizedCap(old(cap), len + additional, elemSize) && old(Contents()) <= Contents()
      ensures r != Ok ==> unchanged(this) && mem.blocks == old(mem.blocks) && mem.freed == old(mem.freed)
    {
      if elemSize == 0 {
        return CapacityOverflow;
      }
      var required := len + additional;
      if required > UsizeMax(mem.word) {
        return CapacityOverflow;
      }
      assert cap * 2 <= UsizeMax(mem.word);  // the doubling does not overflow
      var newCap := AmortizedCap(cap, required, elemSize);
      r := FinishGrow(newCap);
    }

    /** `try_reserve`: success means room, exactly for callers whose `len` is within the capacity. */
    method TryReserve(len: nat, additional: nat) returns (r: Outcome)
      requires Valid() && len <= UsizeMax(mem.word) && additional <= UsizeMax(mem.word)
      modifies this`ptr, this`cap, mem`requests, mem`next, mem`blocks, mem`freed
      ensures Valid() && Others() == old(Others()) && old(mem.freed) <= mem.freed
      ensures r == Ok ==> (Capacity() >= len + additional <==> len <= old(Capacity()))
      ensures r == Ok ==> Capacity() >= old(Capacity()) && old(Contents()) <= Contents()
      ensures r == Ok && old(NeedsToGrow(len, additional)) ==> cap == AmortizedCap(old(cap), len + additional, elemSize)
      ensures !old(NeedsToGrow(len, additional)) ==> r == Ok && unchanged(this)
      ensures r != Ok ==> unchanged(this) && mem.blocks == old(mem.blocks) && mem.freed == old(mem.freed)
      ensures r == Ok <==>
                || !old(NeedsToGrow(len, additional))
                || (&& elemSize > 0 && len + additional <= UsizeMax(mem.word)
                    && !old(mem.Refuses(ArraySize(elemSize, AmortizedCap(cap, len + additional, elemSize)))))
      ensures r == CapacityOverflow <==>
                && old(NeedsToGrow(len, additional))
                && (|| elemSize == 0 || len + additional > UsizeMax(mem.word)
                    || Overflows(mem.word, elemSize, AmortizedCap(old(cap), len + additional, elemSize)))
    {
      if NeedsToGrow(len, additional) {
        r := GrowAmortized(len, additional);
      } else {
        r := Ok;
      }
    }

    /** `try_reserve_exact`: as `TryReserve`, without the amortised excess. */
    method TryReserveExact(len: nat, additional: nat) returns (r: Outcome)
      requires Valid() && len <= UsizeMax(mem.word) && additional <= UsizeMax(mem.word)
      modifies this`ptr, this`cap, mem`requests, mem`next, mem`blocks, mem`freed
      ensures Valid() && Others() == old(Others()) && old(mem.freed) <= mem.freed
      ensures r == Ok ==> (Capacity() >= len + additional <==> len <= old(Capacity()))
      ensures r == Ok ==> old(Contents()) <= Contents()
      ensures r == Ok && old(NeedsToGrow(len, additional)) ==> cap == len + additional
      ensures r == Ok <==>
                || !old(NeedsToGrow(len, additional))
                || (&& elemSize > 0 && len + additional <= UsizeMax(mem.word)
                    && !old(mem.Refuses(ArraySize(elemSize, len + additional))))
      ensures r == CapacityOverflow <==>
                && old(NeedsToGrow(len, additional))
                && (|| elemSize == 0 || len + additional > UsizeMax(mem.word)
                    || Overflows(mem.word, elemSize, len + additional))
      ensures !old(NeedsToGrow(len, additional)) ==> r == Ok && unchanged(this)
      ensures r != Ok ==> unchanged(this) && mem.blocks == old(mem.blocks) && mem.freed == old(mem.freed)
    {
      if !NeedsToGrow(len, additional) {
        return Ok;
      }
      if elemSize == 0 || len + additional > UsizeMax(mem.word) {
        return CapacityOverflow;
      }
      r := FinishGrow(len + additional);
    }

    lemma Smaller(amount: nat)
      requires amount <= cap
      ensures ArraySize(elemSize, amount) <= Current().size
    {
      ShrinkFits(elemSize, amount, cap);
    }

    /** `shrink`; `None` is the panic on a larger amount. */
    method ShrinkTo(amount: nat) returns (r: Option<Outcome>)
      requires Valid()
      modifies this`ptr, this`cap, mem`requests, mem`next, mem`blocks, mem`freed
      ensures Valid() && Others() == old(Others()) && old(mem.freed) <= mem.freed
      ensures r.None? <==> amount > old(Capacity())
      ensures r == Some(Ok) <==>
                && amount <= old(Capacity())
                && (|| old(CurrentMemory()).None? || elemSize * amount == 0
                    || !old(mem.Refuses(ArraySize(elemSize, amount))))
      ensures r != Some(Ok) ==> unchanged(this) && mem.blocks == old(mem.blocks)
      ensures r == Some(Ok) && elemSize > 0 ==>
                cap == amount && Contents() <= old(Contents())
      ensures r == Some(Ok) && elemSize == 0 ==> unchanged(this)
    {
      hide RawVec.Current, IsizeMax, Memory.Refuses;
      if amount > Capacity() {
        return None;
      }
      var memory := CurrentMemory();
      if memory.None? {
        return Some(Ok);
      }
      Smaller(amount);
      var layout := Layout(ArraySize(elemSize, amount), align);
      var p := Shrink(mem, memory.value.0, memory.value.1, layout);
      if p.None? {
        return Some(AllocError(layout));
      }
      SetPtr(p.value, layout, amount);
      r := Some(Ok);
    }

    /** `RawVec::drop`. */
    method Drop()
      requires Valid()
      modifies mem`blocks, mem`freed
      ensures mem.Valid() && mem.blocks == old(Others())
      ensures mem.freed == old(mem.freed) + old(Addr(ptr, Current()))
    {
      var memory := CurrentMemory();
      if memory.Some? {
        Deallocate(mem, memory.value.0, memory.value.1);
      } else {
        assert elemSize * cap == 0;
      }
    }
  }

  lemma RefusesOverflow(mem: Memory, elemSize: nat, cap: nat)
    ensures Overflows(mem.word, elemSize, cap) ==> mem.Refuses(ArraySize(elemSize, cap))
  {
    OverflowsAbove(mem.word, elemSize, cap);
  }

  lemma ShrinkFits(elemSize: nat, amount: nat, cap: nat)
    requires amount <= cap
    ensures elemSize * amount <= elemSize * cap
  {
  }

  lemma AtLeastOnce(e: nat, k: nat)
    requires k >= 1
    ensures e * k >= e
  {
  }

  lemma SizeGrows(elemSize: nat, cap: nat, newCap: nat)
    requires elemSize > 0 && cap < newCap
    ensures elemSize * cap < elemSize * newCap && newCap <= elemSize * newCap
    ensures cap == 0 <==> elemSize * cap == 0
  {
    assert elemSize * newCap == elemSize * cap + elemSize * (newCap - cap);
    AtLeastOnce(elemSize, newCap - cap);
    AtLeastOnce(newCap, elemSize);
    if cap > 0 { AtLeastOnce(cap, elemSize); }
  }

  lemma SizeRecovered(elemSize: nat, n: nat)
    requires elemSize > 0
    ensures (elemSize * n) / elemSize == n
  {
    QuotientUnique(elemSize * n, elemSize, n);
  }

  lemma QuotientUnique(a: nat, e: nat, n: nat)
    requires e > 0 && a == e * n
    ensures a / e == n
  {
    var q, r := a / e, a % e;
    assert e * (n - q) == r;
    if q < n { AtLeastOnce(e, n - q); }
  }

  // -----------------------------------------------------------------------------------------
  // The life of a block

  datatype Request =
    | Reserve(len: nat, additional: nat)
    | ReserveExact(len: nat, additional: nat)
    | ShrinkToFit(amount: nat)

  /** Any run of requests, whatever each of them answers, and then the destructor: memory is left
      exactly as it was found, and every address used on the way has been freed. */
  method Lifetime(mem: Memory, elemSize: nat, align: nat, requests: seq<Request>)
    requires mem.Valid() && elemSize <= IsizeMax(mem.word)
    requires forall q :: q in requests && !q.ShrinkToFit? ==>
               q.len <= UsizeMax(mem.word) && q.additional <= UsizeMax(mem.word)
    modifies mem
    ensures mem.Valid() && mem.blocks == old(mem.blocks) && old(mem.freed) <= mem.freed
    ensures forall a: nat :: old(mem.next) <= a < mem.next ==> a in mem.freed
  {
    var raw := new RawVec(mem, elemSize, align);
    assert raw.Others() == old(mem.blocks);
    for i := 0 to |requests|
      invariant raw.Valid() && raw.mem == mem && fresh(raw) && raw.Others() == old(mem.blocks)
      invariant old(mem.freed) <= mem.freed
    {
      match requests[i] {
        case Reserve(len, additional) => var _ := raw.TryReserve(len, additional);
        case ReserveExact(len, additional) => var _ := raw.TryReserveExact(len, additional);
        case ShrinkToFit(amount) => var _ := raw.ShrinkTo(amount);
      }
    }
    raw.Drop();
  }

  // -----------------------------------------------------------------------------------------
  // Amortised growth

  /** The call of `reserve` in `push` on a full vector: the capacity at least doubles. */
  method ReserveOne(raw: RawVec) returns (ok: bool)
    requires raw.Valid() && raw.elemSize > 0
    modifies raw, raw.mem
    ensures raw.Valid()
    ensures if ok then raw.cap >= old(raw.cap) * 2 && raw.cap > old(raw.cap) else raw.cap == old(raw.cap)
    ensures var n := AmortizedCap(old(raw.cap), old(raw.cap) + 1, raw.elemSize);
            && (ok <==> raw.elemSize * n <= IsizeMax(raw.mem.word) && !raw.mem.fails(old(raw.mem.requests)))
            && (ok ==> raw.cap == n)
  {
    hide AmortizedCap, Overflows;
    AmortizedLeast(raw.cap, raw.cap + 1, raw.elemSize, AmortizedCap(raw.cap, raw.cap + 1, raw.elemSize));
    var r := raw.TryReserve(raw.cap, 1);
    ok := r == Ok;
  }

  /** The elements moved so far are paid for by the last doubling. */
  ghost predicate Paid(cap: nat, pushes: nat, moved: nat, prev: nat) {
    && moved <= 2 * prev && 2 * prev <= cap
    && (if pushes == 0 then moved == 0 && prev == 0 else prev < pushes)
  }

  lemma PaidPush(cap: nat, pushes: nat, moved: nat, prev: nat)
    requires Paid(cap, pushes, moved, prev)
    ensures Paid(cap, pushes + 1, moved, prev) && moved < 2 * (pushes + 1)
  {
  }

  lemma PaidGrowth(cap: nat, cap': nat, pushes: nat, moved: nat, prev: nat)
    requires Paid(cap, pushes, moved, prev) && cap <= pushes && cap * 2 <= cap'
    ensures Paid(cap', pushes + 1, moved + cap, cap) && moved + cap < 2 * (pushes + 1)
  {
  }

  /** `Vec::push` and `Vec::pop` as far as capacity goes. */
  class Growing {
    const raw: RawVec
    var len: nat
    ghost var pushes: nat   // calls of push that have stored their element
    ghost var moved: nat    // elements that reallocations have moved, in total
    ghost var prev: nat     // capacity before the last reallocation

    ghost predicate Valid()
      reads this, raw, raw.mem
    {
      && raw.Valid() && raw.elemSize > 0
      && len <= raw.cap && len <= pushes && Paid(raw.cap, pushes, moved, prev)
    }

    constructor (raw: RawVec)
      requires raw.Valid() && raw.elemSize > 0 && raw.cap == 0
      ensures this.raw == raw && Valid() && pushes == 0 && moved == 0
    {
      this.raw := raw;
      len, pushes, moved, prev := 0, 0, 0, 0;
    }

    /** Fewer than two elements have been moved per push, whatever was popped in between. */
    method Push() returns (ok: bool)
      requires Valid()
      modifies this, raw, raw.mem
      ensures Valid()
      ensures len == old(len) + (if ok then 1 else 0) && pushes == old(pushes) + (if ok then 1 else 0)
      ensures moved == old(moved) + if raw.cap == old(raw.cap) then 0 else old(raw.cap)
      ensures if ok then moved < 2 * pushes else moved == old(moved)
      ensures old(len) < old(raw.cap) ==> ok && raw.cap == old(raw.cap)
      ensures old(len) == old(raw.cap) ==>
                var n := AmortizedCap(old(raw.cap), old(raw.cap) + 1, raw.elemSize);
                && (ok <==> raw.elemSize * n <= IsizeMax(raw.mem.word) && !raw.mem.fails(old(raw.mem.requests)))
                && (ok ==> raw.cap == n)
    {
      hide Paid, RawVec.Valid, AmortizedCap, IsizeMax;
      if len == raw.cap {
        var oldCap := raw.cap;
        ok := ReserveOne(raw);
        if !ok {
          return;
        }
        PaidGrowth(oldCap, raw.cap, pushes, moved, prev);
        moved, prev := moved + oldCap, oldCap;
      } else {
        PaidPush(raw.cap, pushes, moved, prev);
      }
      ok, len, pushes := true, len + 1, pushes + 1;
    }

    method Pop() returns (ok: bool)
      requires Valid()
      modifies this`len
      ensures Valid() && ok == (old(len) > 0) && len == old(len) - if ok then 1 else 0
    {
      ok := len > 0;
      if ok {
        len := len - 1;
      }
    }
  }

  /** Any sequence of pushes (`true`) and pops (`false`) from an empty vector; `pushes` of them stored
      their element. */
  method PushesAndPops(raw: RawVec, asks: seq<bool>) returns (ghost moved: nat, ghost pushes: nat)
    requires raw.Valid() && raw.elemSize > 0 && raw.cap == 0
    modifies raw, raw.mem
    ensures pushes <= Count(asks) && raw.Valid()
    ensures pushes >= 1 ==> moved < 2 * pushes
    ensures pushes == 0 ==> moved == 0
  {
    var v := new Growing(raw);
    for i := 0 to |asks|
      invariant v.Valid() && v.raw == raw && fresh(v)
      invariant v.pushes <= Count(asks[..i])
      invariant if v.pushes == 0 then v.moved == 0 else v.moved < 2 * v.pushes
    {
      assert asks[..i + 1][..i] == asks[..i];
      if asks[i] {
        var _ := v.Push();
      } else {
        var _ := v.Pop();
      }
    }
    assert asks[..|asks|] == asks;
    moved, pushes := v.moved, v.pushes;
  }

  ghost function Count(asks: seq<bool>): nat {
    if asks == [] then 0 else Count(asks[..|asks| - 1]) + if asks[|asks| - 1] then 1 else 0
  }
}
