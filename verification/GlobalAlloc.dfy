/** The system allocator and the `Global` allocator above it.

    The system allocator is strict: a block may only be given back or resized with the layout it was
    allocated with, and zero-sized requests are not allowed.  Every caller has to prove that it keeps
    to this, so a block can neither be freed twice nor with a wrong layout, nor can a dangling pointer
    be freed. */
module GlobalAlloc {
  import opened Wrappers

  /** The machine words the library is built for. */
  datatype Word = W16 | W32 | W64

  function UsizeMax(w: Word): nat {
    match w
    case W16 => 0xFFFF
    case W32 => 0xFFFF_FFFF
    case W64 => 0xFFFF_FFFF_FFFF_FFFF
  }

  function IsizeMax(w: Word): nat {
    UsizeMax(w) / 2
  }

  /** A byte of memory: unspecified, or known. */
  datatype Byte = Unspecified | Known(value: nat)

  datatype Layout = Layout(size: nat, align: nat)

  datatype Block = Block(layout: Layout, bytes: seq<Byte>)

  /** A pointer into a block, or a well-aligned address that belongs to none. */
  datatype Pointer = Dangling | At(addr: nat)

  class Memory {
    const word: Word
    const fails: nat -> bool          // whether the n-th request is refused
    const moves: nat -> bool          // whether the n-th resize moves the block
    var requests: nat
    var next: nat                     // addresses from here on have never been used
    var blocks: map<nat, Block>
    ghost var freed: set<nat>

    constructor (word: Word, fails: nat -> bool, moves: nat -> bool)
      ensures Valid() && blocks == map[] && freed == {} && this.word == word
    {
      this.word, this.fails, this.moves := word, fails, moves;
      requests, next, blocks, freed := 0, 0, map[], {};
    }

    /** Blocks are as long as their layout says, and every address handed out so far is either live
        or freed. */
    ghost predicate Valid()
      reads this
    {
      && blocks.Keys !! freed
      && (forall a :: a in blocks ==> a < next && |blocks[a].bytes| == blocks[a].layout.size)
      && (forall a :: a in blocks ==> 0 < blocks[a].layout.size <= IsizeMax(word))
      && (forall a :: a in freed ==> a < next)
      && (forall a: nat :: a < next ==> a in blocks || a in freed)
    }

    /** Whether the next request is refused: requests of more than `isize::MAX` bytes always are. */
    predicate Refuses(size: nat)
      reads this
    {
      size > IsizeMax(word) || fails(requests)
    }

    /** `alloc` and `alloc_zeroed`. */
    method Alloc(layout: Layout, zeroed: bool) returns (r: Option<nat>)
      requires Valid() && layout.size > 0
      modifies this`requests, this`next, this`blocks
      ensures Valid() && (r.None? <==> old(Refuses(layout.size)))
      ensures r.None? ==> blocks == old(blocks)
      ensures r.Some? ==>
                && r.value !in old(blocks) && r.value !in freed && layout.size <= IsizeMax(word)
                && blocks == old(blocks)[r.value := Block(layout, Fill(layout.size, zeroed))]
    {
      hide Fill, IsizeMax;
      var refused := Refuses(layout.size);
      requests := requests + 1;
      if refused {
        return None;
      }
      blocks := blocks[next := Block(layout, Fill(layout.size, zeroed))];
      r := Some(next);
      next := next + 1;
    }

    method Dealloc(addr: nat, layout: Layout)
      requires Valid() && addr in blocks && blocks[addr].layout == layout
      modifies this`blocks, this`freed
      ensures Valid()
      ensures blocks == old(blocks) - {addr} && freed == old(freed) + {addr}
    {
      blocks := blocks - {addr};
      freed := freed + {addr};
    }

    /** `realloc`: in place or not, the common prefix is kept and new bytes are unspecified. */
    method Realloc(addr: nat, layout: Layout, size: nat) returns (r: Option<nat>)
      requires Valid() && addr in blocks && blocks[addr].layout == layout && size > 0
      modifies this`requests, this`next, this`blocks, this`freed
      ensures Valid() && (r.None? <==> old(Refuses(size)))
      ensures r.None? ==> blocks == old(blocks) && freed == old(freed)
      ensures r.Some? ==>
                && size <= IsizeMax(word)
                && (r.value == addr || (r.value !in old(blocks) && r.value !in old(freed)))
                && freed == old(freed) + (if r.value == addr then {} else {addr})
                && blocks == (old(blocks) - {addr})[
                     r.value := Block(Layout(size, layout.align), Resized(old(blocks)[addr].bytes, size))]
    {
      hide Resized, IsizeMax;
      var refused := Refuses(size);
      requests := requests + 1;
      if refused {
        return None;
      }
      var b := Block(Layout(size, layout.align), Resized(blocks[addr].bytes, size));
      if moves(requests - 1) {
        blocks := (blocks - {addr})[next := b];
        freed := freed + {addr};
        r := Some(next);
        next := next + 1;
      } else {
        blocks := (blocks - {addr})[addr := b];
        r := Some(addr);
      }
    }
  }

  function Fill(n: nat, zeroed: bool): (r: seq<Byte>)
    ensures |r| == n
  {
    seq(n, _ => if zeroed then Known(0) else Unspecified)
  }

  /** Zeroed memory is zero in every byte, other new memory is unspecified. */
  lemma FillBytes(n: nat, zeroed: bool, i: nat)
    requires i < n
    ensures Fill(n, zeroed)[i] == if zeroed then Known(0) else Unspecified
  {
  }

  function Resized(s: seq<Byte>, n: nat): (r: seq<Byte>)
    ensures |r| == n
  {
    if n <= |s| then s[..n] else s + Fill(n - |s|, false)
  }

  lemma ResizedPrefix(s: seq<Byte>, n: nat)
    ensures var m := if n < |s| then n else |s|; Resized(s, n)[..m] == s[..m]
  {
  }

  /** `ptr` is the block of `layout`: a zero-sized one is no block at all. */
  ghost predicate Owns(mem: Memory, ptr: Pointer, layout: Layout)
    reads mem
  {
    layout.size == 0 || (ptr.At? && ptr.addr in mem.blocks && mem.blocks[ptr.addr].layout == layout)
  }

  ghost function Bytes(mem: Memory, ptr: Pointer, layout: Layout): seq<Byte>
    requires Owns(mem, ptr, layout)
    reads mem
  {
    if layout.size == 0 then [] else mem.blocks[ptr.addr].bytes
  }

  /** The address a pointer stands for, if its layout has a block. */
  ghost function Addr(ptr: Pointer, layout: Layout): set<nat> {
    if layout.size == 0 || ptr.Dangling? then {} else {ptr.addr}
  }

  /** `Global::alloc_impl`. */
  method Allocate(mem: Memory, layout: Layout, zeroed: bool) returns (r: Option<Pointer>)
    requires mem.Valid()
    modifies mem`requests, mem`next, mem`blocks
    ensures mem.Valid() && (r.None? <==> layout.size > 0 && old(mem.Refuses(layout.size)))
    ensures r.None? ==> mem.blocks == old(mem.blocks)
    ensures r.Some? ==>
              && Owns(mem, r.value, layout) && layout.size <= IsizeMax(mem.word)
              && Addr(r.value, layout) !! old(mem.blocks.Keys) && Addr(r.value, layout) !! mem.freed
              && mem.blocks - Addr(r.value, layout) == old(mem.blocks)
              && Bytes(mem, r.value, layout) == Fill(layout.size, zeroed)
  {
    if layout.size == 0 {
      return Some(Dangling);
    }
    var a := mem.Alloc(layout, zeroed);
    if a.None? {
      return None;
    }
    r := Some(At(a.value));
    assert mem.blocks - {a.value} == old(mem.blocks);
  }

  /** `Global::deallocate`. */
  method Deallocate(mem: Memory, ptr: Pointer, layout: Layout)
    requires mem.Valid() && Owns(mem, ptr, layout)
    modifies mem`blocks, mem`freed
    ensures mem.Valid()
    ensures mem.blocks == old(mem.blocks) - Addr(ptr, layout) && mem.freed == old(mem.freed) + Addr(ptr, layout)
  {
    if layout.size != 0 {
      mem.Dealloc(ptr.addr, layout);
    }
  }

  lemma CopiedPrefix(src: seq<Byte>, dst: seq<Byte>, n: nat)
    requires n <= |src| && n <= |dst|
    ensures var z := src[..n] + dst[n..];
            |z| == |dst| && z[..n] == src[..n] && z[n..] == dst[n..]
  {
  }

  /** Overwrites the first bytes of one block with those of another. */
  method CopyBytes(mem: Memory, src: nat, dst: nat, layout: Layout, n: nat)
    requires mem.Valid() && src in mem.blocks && 0 < layout.size && Owns(mem, At(dst), layout) && src != dst
    requires n <= |mem.blocks[src].bytes| && n <= layout.size
    modifies mem`blocks
    ensures mem.Valid() && Owns(mem, At(dst), layout) && mem.blocks - {dst} == old(mem.blocks) - {dst}
    ensures Bytes(mem, At(dst), layout)[..n] == old(mem.blocks)[src].bytes[..n]
    ensures Bytes(mem, At(dst), layout)[n..] == old(Bytes(mem, At(dst), layout))[n..]
  {
    var d := mem.blocks[dst];
    CopiedPrefix(mem.blocks[src].bytes, d.bytes, n);
    mem.blocks := mem.blocks[dst := Block(d.layout, mem.blocks[src].bytes[..n] + d.bytes[n..])];
  }

  lemma ZeroedTail(bytes: seq<Byte>, k: nat)
    requires k <= |bytes|
    ensures var z := bytes[..k] + Fill(|bytes| - k, true);
            |z| == |bytes| && z[..k] == bytes[..k] && z[k..] == Fill(|bytes| - k, true)
  {
  }

  /** `write_bytes(0, ..)` from byte `from` to the end of the block. */
  method ZeroFrom(mem: Memory, addr: nat, layout: Layout, from: nat)
    requires mem.Valid() && 0 < layout.size && Owns(mem, At(addr), layout) && from <= layout.size
    modifies mem`blocks
    ensures mem.Valid() && Owns(mem, At(addr), layout) && mem.blocks - {addr} == old(mem.blocks) - {addr}
    ensures Bytes(mem, At(addr), layout)[..from] == old(Bytes(mem, At(addr), layout))[..from]
    ensures Bytes(mem, At(addr), layout)[from..] == Fill(layout.size - from, true)
  {
    hide Fill;
    var b := mem.blocks[addr];
    ZeroedTail(b.bytes, from);
    mem.blocks := mem.blocks[addr := Block(b.layout, b.bytes[..from] + Fill(|b.bytes| - from, true))];
  }

  /** What resizing promises: the new block has the new layout, every other block is as it was, the
      old address is given up exactly once unless it is kept, and the common prefix is preserved. */
  twostate predicate Resizes(mem: Memory, ptr: Pointer, layout: Layout, r: Pointer, size: Layout)
    requires old(Owns(mem, ptr, layout))
    reads mem
  {
    && Owns(mem, r, size)
    && mem.blocks - Addr(r, size) == old(mem.blocks) - Addr(ptr, layout)
    && mem.freed == old(mem.freed) + (Addr(ptr, layout) - Addr(r, size))
    && var m := if layout.size < size.size then layout.size else size.size;
       && m <= |Bytes(mem, r, size)| && m <= |old(Bytes(mem, ptr, layout))|
       && Bytes(mem, r, size)[..m] == old(Bytes(mem, ptr, layout))[..m]
  }

  /** A block that was replaced by another one, in place or not. */
  lemma Replaced(before: map<nat, Block>, after: map<nat, Block>, addr: nat, r: nat, block: Block)
    requires r == addr || r !in before
    requires after == (before - {addr})[r := block]
    ensures after - {r} == before - {addr}
  {
  }

  /** The part of a resize by `realloc` that both directions share. */
  method Resize(mem: Memory, addr: nat, layout: Layout, size: Layout) returns (r: Option<nat>)
    requires mem.Valid() && Owns(mem, At(addr), layout) && 0 < layout.size
    requires 0 < size.size && layout.align == size.align
    modifies mem`requests, mem`next, mem`blocks, mem`freed
    ensures mem.Valid() && (r.None? <==> old(mem.Refuses(size.size)))
    ensures r.None? ==> mem.blocks == old(mem.blocks) && mem.freed == old(mem.freed)
    ensures r.Some? ==> size.size <= IsizeMax(mem.word) && Resizes(mem, At(addr), layout, At(r.value), size)
  {
    hide Resized, Fill, IsizeMax, Memory.Refuses;
    ghost var blocks, bytes := mem.blocks, mem.blocks[addr].bytes;
    r := mem.Realloc(addr, layout, size.size);
    if r.Some? {
      ResizedPrefix(bytes, size.size);
      Replaced(blocks, mem.blocks, addr, r.value, mem.blocks[r.value]);
    }
  }

  lemma FillSuffix(n: nat, zeroed: bool, k: nat)
    requires k <= n
    ensures Fill(n, zeroed)[k..] == Fill(n - k, zeroed)
  {
  }

  /** The part that both copying branches share: a new block with the first bytes of the old one. */
  method AllocateCopy(mem: Memory, addr: nat, size: Layout, n: nat, zeroed: bool) returns (r: Option<nat>)
    requires mem.Valid() && addr in mem.blocks && 0 < size.size && n <= size.size && n <= |mem.blocks[addr].bytes|
    modifies mem`requests, mem`next, mem`blocks
    ensures mem.Valid() && (r.None? <==> old(mem.Refuses(size.size)))
    ensures r.None? ==> mem.blocks == old(mem.blocks)
    ensures r.Some? ==>
              && size.size <= IsizeMax(mem.word) && Owns(mem, At(r.value), size)
              && r.value !in old(mem.blocks) && r.value !in mem.freed
              && addr in mem.blocks && mem.blocks[addr] == old(mem.blocks)[addr]
              && (mem.blocks - {addr}) - {r.value} == old(mem.blocks) - {addr}
              && Bytes(mem, At(r.value), size)[..n] == old(mem.blocks)[addr].bytes[..n]
              && Bytes(mem, At(r.value), size)[n..] == Fill(size.size - n, zeroed)
  {
    hide Fill, IsizeMax, Memory.Refuses;
    var p := Allocate(mem, size, zeroed);
    if p.None? {
      return None;
    }
    FillSuffix(size.size, zeroed, n);
    var copy := p.value.addr;
    assert addr in mem.blocks - {copy};
    CopyBytes(mem, addr, copy, size, n);
    assert addr in mem.blocks - {copy};
    assert (mem.blocks - {addr}) - {copy} == (mem.blocks - {copy}) - {addr};
    r := Some(copy);
  }

  /** The branch of `grow_impl` for a different alignment. */
  method GrowByCopy(mem: Memory, addr: nat, layout: Layout, size: Layout, zeroed: bool) returns (r: Option<Pointer>)
    requires mem.Valid() && Owns(mem, At(addr), layout) && 0 < layout.size <= size.size
    modifies mem`requests, mem`next, mem`blocks, mem`freed
    ensures mem.Valid() && (r.None? <==> old(mem.Refuses(size.size)))
    ensures r.None? ==> mem.blocks == old(mem.blocks) && mem.freed == old(mem.freed)
    ensures r.Some? ==> size.size <= IsizeMax(mem.word) && Resizes(mem, At(addr), layout, r.value, size)
    ensures r.Some? && zeroed ==>
              Bytes(mem, r.value, size)[layout.size..] == Fill(size.size - layout.size, true)
  {
    hide Fill, IsizeMax, Memory.Refuses;
    var copy := AllocateCopy(mem, addr, size, layout.size, zeroed);
    if copy.None? {
      return None;
    }
    Deallocate(mem, At(addr), layout);
    r := Some(At(copy.value));
  }

  lemma FillAll(n: nat, zeroed: bool)
    ensures Fill(n, zeroed)[0..] == Fill(n, zeroed)
  {
  }

  /** The branch of `grow_impl` for equal alignment. */
  method GrowInPlace(mem: Memory, addr: nat, layout: Layout, size: Layout, zeroed: bool) returns (r: Option<Pointer>)
    requires mem.Valid() && Owns(mem, At(addr), layout) && 0 < layout.size <= size.size && layout.align == size.align
    modifies mem`requests, mem`next, mem`blocks, mem`freed
    ensures mem.Valid() && (r.None? <==> old(mem.Refuses(size.size)))
    ensures r.None? ==> mem.blocks == old(mem.blocks) && mem.freed == old(mem.freed)
    ensures r.Some? ==> size.size <= IsizeMax(mem.word) && Resizes(mem, At(addr), layout, r.value, size)
    ensures r.Some? && zeroed ==>
              Bytes(mem, r.value, size)[layout.size..] == Fill(size.size - layout.size, true)
  {
    hide Fill, IsizeMax, Memory.Refuses;
    var a := Resize(mem, addr, layout, size);
    if a.None? {
      return None;
    }
    if zeroed {
      ZeroFrom(mem, a.value, size, layout.size);
    }
    r := Some(At(a.value));
  }

  /** `Global::grow_impl`, all three branches. */
  method Grow(mem: Memory, ptr: Pointer, layout: Layout, size: Layout, zeroed: bool) returns (r: Option<Pointer>)
    requires mem.Valid() && Owns(mem, ptr, layout) && layout.size <= size.size
    modifies mem`requests, mem`next, mem`blocks, mem`freed
    ensures mem.Valid() && (r.None? <==> size.size > 0 && old(mem.Refuses(size.size)))
    ensures r.None? ==> mem.blocks == old(mem.blocks) && mem.freed == old(mem.freed)
    ensures r.Some? ==> size.size <= IsizeMax(mem.word) && Resizes(mem, ptr, layout, r.value, size)
    ensures r.Some? && zeroed ==>
              Bytes(mem, r.value, size)[layout.size..] == Fill(size.size - layout.size, true)
  {
    hide Resized, Fill, IsizeMax, Memory.Refuses;
    if layout.size == 0 {
      r := Allocate(mem, size, zeroed);
      FillAll(size.size, zeroed);
    } else if layout.align == size.align {
      r := GrowInPlace(mem, ptr.addr, layout, size, zeroed);
    } else {
      r := GrowByCopy(mem, ptr.addr, layout, size, zeroed);
    }
  }

  /** The branch of `shrink` for a different alignment. */
  method ShrinkByCopy(mem: Memory, addr: nat, layout: Layout, size: Layout) returns (r: Option<Pointer>)
    requires mem.Valid() && Owns(mem, At(addr), layout) && 0 < size.size <= layout.size
    modifies mem`requests, mem`next, mem`blocks, mem`freed
    ensures mem.Valid() && (r.None? <==> old(mem.Refuses(size.size)))
    ensures r.None? ==> mem.blocks == old(mem.blocks) && mem.freed == old(mem.freed)
    ensures r.Some? ==> Resizes(mem, At(addr), layout, r.value, size)
  {
    hide Fill, IsizeMax, Memory.Refuses;
    var copy := AllocateCopy(mem, addr, size, size.size, false);
    if copy.None? {
      return None;
    }
    Deallocate(mem, At(addr), layout);
    r := Some(At(copy.value));
  }

  /** `Global::shrink`, all three branches. */
  method Shrink(mem: Memory, ptr: Pointer, layout: Layout, size: Layout) returns (r: Option<Pointer>)
    requires mem.Valid() && Owns(mem, ptr, layout) && size.size <= layout.size
    modifies mem`requests, mem`next, mem`blocks, mem`freed
    ensures mem.Valid() && (r.None? <==> size.size > 0 && old(mem.Refuses(size.size)))
    ensures r.None? ==> mem.blocks == old(mem.blocks) && mem.freed == old(mem.freed)
    ensures r.Some? ==> Resizes(mem, ptr, layout, r.value, size)
  {
    hide Resized, Fill, IsizeMax, Memory.Refuses;
    if size.size == 0 {
      Deallocate(mem, ptr, layout);
      r := Some(Dangling);
    } else if layout.align == size.align {
      var a := Resize(mem, ptr.addr, layout, size);
      if a.None? {
        return None;
      }
      r := Some(At(a.value));
    } else {
      r := ShrinkByCopy(mem, ptr.addr, layout, size);
    }
  }
}
