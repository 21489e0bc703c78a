/**
 Address arithmetic of the two raw allocators: `aligned_alloc` /
 `aligned_free` (`libauxid/include/auxid/pch.hpp`), which over-allocate with
 `malloc` and stash the raw pointer just below the aligned block, and
 `ArenaAllocator` (`libauxid/include/auxid/memory/arena.hpp`), a bump
 allocator over a caller's buffer.

 Addresses are naturals below 2^64. `malloc`'s answer is a parameter, the
 words written through pointers are a map from address to stored address,
 and every alignment the model accepts is a power of two, for which masking
 with `align - 1` is taking the remainder.
 */
module AuMemory {
  import opened Common

  /** A returned pointer: null, or an address. */
  datatype Block = Null | Ptr(addr: nat)

  /** `x & (align - 1)` for a power-of-two `align`: the remainder, by repeated subtraction. */
  function LowBits(x: nat, align: nat): (r: nat)
    requires align > 0
    ensures r < align && r <= x
    decreases x
  {
    if x < align then x else LowBits(x - align, align)
  }

  /** `x` is a multiple of `align`. */
  predicate Aligned(x: nat, align: nat)
    requires align > 0
  {
    LowBits(x, align) == 0
  }

  /** Every address is byte-aligned. */
  lemma {:induction false} LowBitsOne(x: nat)
    ensures Aligned(x, 1)
    decreases x
  {
    if x > 0 {
      LowBitsOne(x - 1);
    }
  }

  /** Adding `align` does not change the low bits. */
  lemma LowBitsShift(x: nat, align: nat)
    requires align > 0
    ensures LowBits(x + align, align) == LowBits(x, align)
  {
  }

  /**
   The arena's padding, `(align - (addr & (align - 1))) & (align - 1)`: the
   distance from `addr` up to the next multiple of `align`.
   */
  function Padding(addr: nat, align: nat): (p: nat)
    requires IsPow2(align)
    ensures p < align
    ensures Aligned(addr + p, align)
    ensures p == 0 <==> Aligned(addr, align)
  {
    Pow2AtLeastOne(align);
    PaddingAligns(addr, align);
    PadBits(addr, align)
  }

  function PadBits(addr: nat, align: nat): nat
    requires align > 0
  {
    LowBits(align - LowBits(addr, align), align)
  }

  lemma {:induction false} PaddingAligns(addr: nat, align: nat)
    requires align > 0
    ensures Aligned(addr + PadBits(addr, align), align)
    ensures PadBits(addr, align) == 0 <==> Aligned(addr, align)
    decreases addr
  {
    if addr < align {
      assert LowBits(align, align) == LowBits(0, align);
      if addr > 0 {
        assert addr + (align - addr) == align;
      }
    } else {
      PaddingAligns(addr - align, align);
      PadBitsShift(addr - align, align);
      var p := PadBits(addr, align);
      LowBitsShift(addr - align + p, align);
      assert addr + p == addr - align + p + align;
    }
  }

  /** Padding depends only on the low bits. */
  lemma PadBitsShift(x: nat, align: nat)
    requires align > 0
    ensures PadBits(x + align, align) == PadBits(x, align)
  {
    LowBitsShift(x, align);
  }

  /**
   `(x + (align - 1)) & ~(align - 1)`: clearing the low bits of
   `x + align - 1`, which rounds `x` up to a multiple of `align`.
   */
  function RoundUp(x: nat, align: nat): (r: nat)
    requires align > 0
    ensures x <= r < x + align
  {
    (x + align - 1) - LowBits(x + align - 1, align)
  }

  /** Rounding up is adding the arena's padding: the two allocators align the same way. */
  lemma {:induction false} RoundUpIsPadding(x: nat, align: nat)
    requires IsPow2(align)
    ensures RoundUp(x, align) == x + Padding(x, align)
  {
    Pow2AtLeastOne(align);
    RoundUpIsPadBits(x, align);
  }

  lemma {:induction false} RoundUpIsPadBits(x: nat, align: nat)
    requires align > 0
    ensures RoundUp(x, align) == x + PadBits(x, align)
    decreases x
  {
    if x >= align {
      RoundUpIsPadBits(x - align, align);
      RoundUpShift(x - align, align);
      PadBitsShift(x - align, align);
    } else if x > 0 {
      RoundUpSmall(x, align);
    } else {
      assert LowBits(align - 1, align) == align - 1;
      assert LowBits(align, align) == LowBits(0, align);
    }
  }

  lemma RoundUpShift(x: nat, align: nat)
    requires align > 0
    ensures RoundUp(x + align, align) == RoundUp(x, align) + align
  {
    LowBitsShift(x + align - 1, align);
  }

  lemma RoundUpSmall(x: nat, align: nat)
    requires 0 < x < align
    ensures RoundUp(x, align) == x + PadBits(x, align)
  {
    assert LowBits(x + align - 1, align) == LowBits(x - 1, align);
    assert LowBits(x, align) == x;
    assert LowBits(align - x, align) == align - x;
  }

  // ---------------------------------------------------------------------------
  // aligned_alloc / aligned_free
  // ---------------------------------------------------------------------------

  /** The address words written so far: `storage[-1] = raw` writes one. */
  type Memory = map<nat, nat>

  /**
   `aligned_alloc(alignment, size)` with the request size computed without
   wrapping: an alignment that is zero or not a power of two gives null, a
   request too large for the address space gives null, and so does a null
   `raw` (what `malloc` returned for the request). Otherwise the result is the
   first multiple of `alignment` at least one pointer past `raw`, and `raw` is
   stored in the word just below it.
   */
  function AlignedAlloc(alignment: nat, size: nat, raw: Block, mem: Memory): (r: (Block, Memory))
    requires alignment < U64_MOD && size < U64_MOD
    requires raw.Ptr? && size + alignment + PTR_SIZE < U64_MOD ==> raw.addr + size + alignment + PTR_SIZE < U64_MOD
    ensures r.0.Ptr? <==> IsPow2(alignment) && size + alignment + PTR_SIZE < U64_MOD && raw.Ptr?
    ensures r.0.Null? ==> r.1 == mem
    ensures r.0.Ptr? ==> Aligned(r.0.addr, alignment)
    ensures r.0.Ptr? ==> raw.addr + PTR_SIZE <= r.0.addr
    ensures r.0.Ptr? ==> r.0.addr + size <= raw.addr + size + alignment + PTR_SIZE < U64_MOD
    ensures r.0.Ptr? ==> r.1 == mem[r.0.addr - PTR_SIZE := raw.addr]
  {
    if !IsPow2(alignment) then (Null, mem)
    else if size + alignment + PTR_SIZE >= U64_MOD then (Null, mem)
    else if raw.Null? then (Null, mem)
    else
      var aligned := RoundUp(raw.addr + PTR_SIZE, alignment);
      RoundUpIsPadding(raw.addr + PTR_SIZE, alignment);
      (Ptr(aligned), mem[aligned - PTR_SIZE := raw.addr])
  }

  /** What `aligned_free` hands to `free`: nothing for null, else the word just below the block. */
  datatype Freed = NothingFreed | Frees(raw: nat)

  /** `aligned_free(p)`: the caller passes null or a pointer `aligned_alloc` returned. */
  function AlignedFree(p: Block, mem: Memory): (r: Freed)
    requires p.Ptr? ==> p.addr >= PTR_SIZE && p.addr - PTR_SIZE in mem
    ensures r.NothingFreed? <==> p.Null?
  {
    if p.Null? then NothingFreed else Frees(mem[p.addr - PTR_SIZE])
  }

  /** `aligned_free` frees exactly the raw block the matching `aligned_alloc` got from `malloc`. */
  lemma {:induction false} AlignedFreeFreesRaw(alignment: nat, size: nat, raw: Block, mem: Memory)
    requires alignment < U64_MOD && size < U64_MOD
    requires raw.Ptr? && size + alignment + PTR_SIZE < U64_MOD ==> raw.addr + size + alignment + PTR_SIZE < U64_MOD
    requires AlignedAlloc(alignment, size, raw, mem).0.Ptr?
    ensures AlignedFree(AlignedAlloc(alignment, size, raw, mem).0, AlignedAlloc(alignment, size, raw, mem).1) == Frees(raw.addr)
  {
    var r := AlignedAlloc(alignment, size, raw, mem);
    assert r.1 == mem[r.0.addr - PTR_SIZE := raw.addr];
  }

  /**
   `aligned_alloc` as written: `size + alignment + sizeof(void*)` is a `size_t`
   sum, so it wraps, and the wrapped total is what `malloc` is asked for.
   */
  function AlignedAllocAsWritten(alignment: nat, size: nat, raw: Block, mem: Memory): (r: (Block, Memory))
    requires alignment < U64_MOD && size < U64_MOD
    requires raw.Ptr? ==> raw.addr + (size + alignment + PTR_SIZE) % U64_MOD < U64_MOD
    ensures r.0.Ptr? <==> IsPow2(alignment) && raw.Ptr?
    ensures r.0.Ptr? ==> raw.addr + PTR_SIZE <= r.0.addr < raw.addr + PTR_SIZE + alignment
    ensures r.0.Ptr? ==> r.0.addr >= PTR_SIZE && r.1 == mem[r.0.addr - PTR_SIZE := raw.addr]
    ensures r.0.Null? ==> r.1 == mem
  {
    if !IsPow2(alignment) then (Null, mem)
    else if raw.Null? then (Null, mem)
    else
      var aligned := RoundUp(raw.addr + PTR_SIZE, alignment);
      (Ptr(aligned), mem[aligned - PTR_SIZE := raw.addr])
  }

  /** When the request size fits, the code as written is the model above. */
  lemma {:induction false} AlignedAllocAsWrittenAgrees(alignment: nat, size: nat, raw: Block, mem: Memory)
    requires alignment < U64_MOD && size < U64_MOD
    requires size + alignment + PTR_SIZE < U64_MOD
    requires raw.Ptr? ==> raw.addr + size + alignment + PTR_SIZE < U64_MOD
    ensures AlignedAllocAsWritten(alignment, size, raw, mem) == AlignedAlloc(alignment, size, raw, mem)
  {
    SmallModulo(size + alignment + PTR_SIZE, U64_MOD);
  }


  /**
   Asking for `2^64 - 16` bytes with alignment 8 requests a total of 0 bytes;
   if `malloc(0)` returns a unique non-null block (here at 8), the caller is
   handed a pointer to `2^64 - 16` bytes that lie outside it.
   */
  lemma AlignedAllocAsWrittenWraps()
    ensures (U64_MOD - 16 + 8 + PTR_SIZE) % U64_MOD == 0
    ensures AlignedAllocAsWritten(8, U64_MOD - 16, Ptr(8), map[]).0 == Ptr(16)
    ensures 16 + (U64_MOD - 16) > 8 + 0
    ensures AlignedAlloc(8, U64_MOD - 16, Ptr(8), map[]).0 == Null
  {
    assert IsPow2(8) by { assert IsPow2(4) by { assert IsPow2(2) by { assert IsPow2(1); } } }
    assert LowBits(23, 8) == 7;
  }

  // ---------------------------------------------------------------------------
  // ArenaAllocator
  // ---------------------------------------------------------------------------

  datatype Arena = Arena(buffer: nat, length: nat, offset: nat)

  /** A real buffer does not wrap the address space, and the bump offset stays within it. */
  predicate Valid(a: Arena) {
    a.buffer + a.length < U64_MOD && a.offset <= a.length
  }

  /** `init(buf, len)`: the whole buffer is free. */
  function Init(buf: nat, len: nat): (r: Arena)
    ensures r.buffer == buf && r.length == len && r.offset == 0
    ensures buf + len < U64_MOD ==> Valid(r)
  {
    Arena(buf, len, 0)
  }

  /** The address the next block would start from, `buffer + offset` as a `uintptr_t`. */
  function Cursor(a: Arena): nat {
    (a.buffer + a.offset) % U64_MOD
  }

  /**
   `alloc(size, align)` with `size + padding` computed without wrapping: pad
   the cursor up to `align`, and hand out the block if the padding and the
   block fit in what is left; otherwise null and no change.
   */
  function Alloc(a: Arena, size: nat, align: nat): (r: (Arena, Block))
    requires IsPow2(align)
    ensures r.1.Null? <==> a.offset > a.length || size + Padding(Cursor(a), align) > a.length - a.offset
    ensures r.1.Null? ==> r.0 == a
    ensures r.1.Ptr? ==> r.0.buffer == a.buffer && r.0.length == a.length
    ensures r.1.Ptr? ==> a.offset + size <= r.0.offset < a.offset + size + align && r.0.offset <= a.length
    ensures Valid(a) ==> Valid(r.0)
    ensures Valid(a) && r.1.Ptr? ==> Aligned(r.1.addr, align)
    ensures Valid(a) && r.1.Ptr? ==> a.buffer + a.offset <= r.1.addr && r.1.addr + size == a.buffer + r.0.offset
  {
    var padding := Padding(Cursor(a), align);
    var total := size + padding;
    if a.offset > a.length || total > a.length - a.offset then (a, Null)
    else
      NoWrapInside(a, padding);
      (a.(offset := a.offset + total), Ptr((a.buffer + a.offset + padding) % U64_MOD))
  }

  /** Inside a valid arena, the cursor and the padded cursor are plain sums. */
  lemma NoWrapInside(a: Arena, padding: nat)
    ensures Valid(a) && a.offset + padding <= a.length ==>
      Cursor(a) == a.buffer + a.offset && (a.buffer + a.offset + padding) % U64_MOD == a.buffer + a.offset + padding
  {
    if Valid(a) && a.offset + padding <= a.length {
      SmallModulo(a.buffer + a.offset, U64_MOD);
      SmallModulo(a.buffer + a.offset + padding, U64_MOD);
    }
  }

  /** `alloc(size)`: eight-byte alignment. */
  function AllocDefault(a: Arena, size: nat): (r: (Arena, Block))
    ensures Valid(a) && r.1.Ptr? ==> Aligned(r.1.addr, 8) && Valid(r.0)
    ensures r == Alloc(a, size, 8)
  {
    assert IsPow2(8) by { assert IsPow2(4) by { assert IsPow2(2) by { assert IsPow2(1); } } }
    Alloc(a, size, 8)
  }

  /** Blocks handed out one after the other do not overlap: the second starts at or after the end of the first. */
  lemma {:induction false} SuccessiveBlocksDisjoint(a: Arena, s1: nat, al1: nat, s2: nat, al2: nat)
    requires Valid(a) && IsPow2(al1) && IsPow2(al2)
    requires Alloc(a, s1, al1).1.Ptr? && Alloc(Alloc(a, s1, al1).0, s2, al2).1.Ptr?
    ensures Alloc(a, s1, al1).1.addr + s1 <= Alloc(Alloc(a, s1, al1).0, s2, al2).1.addr
    ensures Alloc(Alloc(a, s1, al1).0, s2, al2).1.addr + s2 <= a.buffer + a.length
  {
    var first := Alloc(a, s1, al1);
    assert Valid(first.0);
  }

  /** A fresh arena over a real buffer hands out the whole buffer to one byte-aligned request. */
  lemma {:induction false} InitThenAllocAll(buf: nat, len: nat)
    requires buf + len < U64_MOD
    ensures Alloc(Init(buf, len), len, 1) == (Arena(buf, len, len), Ptr(buf))
  {
    assert IsPow2(1);
    var a := Init(buf, len);
    SmallModulo(buf, U64_MOD);
    assert Cursor(a) == buf;
    assert Padding(buf, 1) == 0 by { LowBitsOne(buf); }
  }

  /** `realloc`: the arena cannot resize in place, so it always refuses and changes nothing. */
  function Realloc(a: Arena, p: Block, oldSize: nat, newSize: nat, align: nat): (r: (Arena, Block))
    ensures r.1.Null? && r.0 == a
  {
    (a, Null)
  }

  /** `free`: individual blocks are never given back. */
  function Free(a: Arena, p: Block, size: nat, align: nat): (r: Arena)
    ensures r == a
  {
    a
  }

  /** `alloc(size, align)` as written: `total = size + padding` is a `usize` sum and wraps. */
  function AllocAsWritten(a: Arena, size: nat, align: nat): (r: (Arena, Block))
    requires IsPow2(align)
    ensures r.1.Null? <==> a.offset > a.length || (size + Padding(Cursor(a), align)) % U64_MOD > a.length - a.offset
    ensures r.1.Null? ==> r.0 == a
    ensures r.1.Ptr? ==> a.offset <= r.0.offset <= a.length && r.0.buffer == a.buffer && r.0.length == a.length
  {
    var padding := Padding(Cursor(a), align);
    var total := (size + padding) % U64_MOD;
    if a.offset > a.length || total > a.length - a.offset then (a, Null)
    else (a.(offset := a.offset + total), Ptr((a.buffer + a.offset + padding) % U64_MOD))
  }

  /** When `size + padding` fits in 64 bits, the code as written is the model above. */
  lemma {:induction false} AllocAsWrittenAgrees(a: Arena, size: nat, align: nat)
    requires IsPow2(align)
    requires size + Padding(Cursor(a), align) < U64_MOD
    ensures AllocAsWritten(a, size, align) == Alloc(a, size, align)
  {
    SmallModulo(size + Padding(Cursor(a), align), U64_MOD);
  }

  /**
   A request of `2^64 - 7` bytes from a 16-byte arena at address 1 needs 7
   bytes of padding; the wrapped total is 0, so the code as written returns
   a pointer without moving the offset, where the request should fail.
   */
  lemma ArenaTotalWraps()
    ensures AllocAsWritten(Arena(1, 16, 0), U64_MOD - 7, 8) == (Arena(1, 16, 0), Ptr(8))
    ensures Alloc(Arena(1, 16, 0), U64_MOD - 7, 8) == (Arena(1, 16, 0), Null)
  {
    assert IsPow2(8) by { assert IsPow2(4) by { assert IsPow2(2) by { assert IsPow2(1); } } }
    assert Cursor(Arena(1, 16, 0)) == 1;
    assert Padding(1, 8) == 7;
  }
}
