/** The bump allocator: where a block goes, and what every run of allocations keeps. */
module Arena {
  import opened Arith
  import opened Bytes

  const MAX64: nat := 0xFFFF_FFFF_FFFF_FFFF

  predicate PowerOfTwo(n: nat) {
    n == 1 || (n > 0 && n % 2 == 0 && PowerOfTwo(n / 2))
  }

  /** The bitwise conjunction of two numbers. */
  function BitAnd(x: nat, y: nat): nat {
    if x == 0 || y == 0 then 0 else 2 * BitAnd(x / 2, y / 2) + (if x % 2 == 1 && y % 2 == 1 then 1 else 0)
  }

  lemma {:induction false} BitAndSame(x: nat)
    ensures BitAnd(x, x) == x
  {
    if x > 0 {
      BitAndSame(x / 2);
    }
  }

  /** The source's mask accepts exactly the powers of two. */
  lemma {:induction false} MaskTest(n: nat)
    requires n > 0
    ensures BitAnd(n, n - 1) == 0 <==> PowerOfTwo(n)
  {
    if n % 2 == 0 {
      assert (n - 1) / 2 == n / 2 - 1;
      MaskTest(n / 2);
    } else {
      assert (n - 1) / 2 == n / 2;
      BitAndSame(n / 2);
    }
  }

  /** The alignments the allocator accepts. */
  predicate GoodAlign(align: nat) {
    align <= 64 && PowerOfTwo(align)
  }

  /** `start` is an aligned place, not before `from`, with `size` bytes up to `cap`. */
  predicate Fits(start: nat, size: nat, align: nat, from: nat, cap: nat)
    requires align > 0
  {
    from <= start && start % align == 0 && start + size <= cap
  }

  function Pad(from: nat, align: nat): nat
    requires align > 0
  {
    (align - from % align) % align
  }

  /** The padding leads to an aligned place less than one alignment away. */
  lemma PadAligns(from: nat, align: nat)
    requires align > 0
    ensures (from + Pad(from, align)) % align == 0 && Pad(from, align) < align
  {
    var q: nat, m: nat := from / align, from % align;
    assert from == align * q + m;
    if m == 0 {
      DivUnique(align, align, 1);
    } else {
      DivUnique(align - m, align, 0);
      MulStep(align, q);
      DivUnique(align * (q + 1), align, q + 1);
    }
  }

  /** No aligned place lies in between: two multiples of `align` are equal or at least `align` apart. */
  lemma PadIsLeast(from: nat, align: nat, other: nat)
    requires align > 0 && other >= from && other % align == 0
    ensures from + Pad(from, align) <= other
  {
    hide Pad;
    PadAligns(from, align);
    var a := from + Pad(from, align);
    if other < a {
      var p, q := other / align, a / align;
      assert other == align * p && a == align * q;
      MulCancel(align, p, q);
      MulMono(align, p + 1, q);
      MulStep(align, p);
    }
  }

  /** A block's address is aligned exactly when the buffer's own address is. */
  lemma AddressAligned(base: nat, start: nat, align: nat)
    requires align > 0 && start % align == 0
    ensures (base + start) % align == 0 <==> base % align == 0
  {
    var p, q, m := start / align, base / align, base % align;
    assert base + start == align * (p + q) + m by {
      assert align * (p + q) == align * p + align * q;
    }
    DivUnique(base + start, align, p + q);
  }

  datatype Block = Block(start: nat, size: nat, align: nat)

  class Arena {
    var hasBuffer: bool
    var cap: nat
    var offset: nat
    /** The blocks handed out since the last reset, oldest first. */
    ghost var blocks: seq<Block>

    /** Every block is in bounds and aligned, and none overlaps another. */
    ghost predicate Valid()
      reads this
    {
      && offset <= cap <= MAX64 && (cap > 0 ==> hasBuffer)
      && (forall i :: 0 <= i < |blocks| ==>
            && blocks[i].size > 0 && GoodAlign(blocks[i].align) && blocks[i].start % blocks[i].align == 0
            && blocks[i].start + blocks[i].size <= offset)
      && (forall i, j :: 0 <= i < j < |blocks| ==> blocks[i].start + blocks[i].size <= blocks[j].start)
      && (blocks == [] ==> offset == 0)
      && (blocks != [] ==> var last := blocks[|blocks| - 1]; offset == last.start + last.size)
    }

    /** ic_arena_init refuses a missing buffer unless the capacity is zero. */
    static method Init(hasBuffer: bool, cap: nat) returns (a: Option<Arena>)
      requires cap <= MAX64
      ensures a.None? <==> !hasBuffer && cap > 0
      ensures a.Some? ==> fresh(a.value) && a.value.Valid() && a.value.cap == cap && a.value.blocks == []
    {
      if !hasBuffer && cap > 0 {
        return None;
      }
      var arena := new Arena;
      arena.hasBuffer, arena.cap, arena.offset, arena.blocks := hasBuffer, cap, 0, [];
      a := Some(arena);
    }

    /**
     * ic_arena_alloc: the block goes to the lowest aligned place past the last block; the request is
     * refused exactly when its size or alignment is no good or no place at all would do, and then
     * nothing changes.
     */
    method Alloc(size: nat, align: nat) returns (ptr: Option<nat>)
      requires Valid() && size <= MAX64 && align <= MAX64
      modifies this
      ensures Valid() && cap == old(cap)
      ensures ptr.None? <==>
                || size == 0 || !GoodAlign(align)
                || forall p: nat :: !Fits(p, size, align, old(offset), cap)
      ensures ptr.None? ==> offset == old(offset) && blocks == old(blocks)
      ensures ptr.Some? ==>
                && Fits(ptr.value, size, align, old(offset), cap)
                && (forall p: nat :: Fits(p, size, align, old(offset), cap) ==> ptr.value <= p)
                && offset == ptr.value + size
                && blocks == old(blocks) + [Block(ptr.value, size, align)]
    {
      if !hasBuffer || size == 0 || align == 0 {
        return None;
      }
      MaskTest(align);
      if BitAnd(align, align - 1) != 0 {
        return None;
      }
      if align > 64 {
        return None;
      }
      if offset > cap {
        return None;
      }
      ptr := Place(size, align);
    }

    /** The part of ic_arena_alloc behind the checks of its arguments. */
    method Place(size: nat, align: nat) returns (ptr: Option<nat>)
      requires Valid() && 0 < size <= MAX64 && GoodAlign(align)
      modifies this
      ensures Valid() && cap == old(cap)
      ensures ptr.None? <==> forall p: nat :: !Fits(p, size, align, old(offset), cap)
      ensures ptr.None? ==> offset == old(offset) && blocks == old(blocks)
      ensures ptr.Some? ==>
                && Fits(ptr.value, size, align, old(offset), cap)
                && (forall p: nat :: Fits(p, size, align, old(offset), cap) ==> ptr.value <= p)
                && offset == ptr.value + size
                && blocks == old(blocks) + [Block(ptr.value, size, align)]
    {
      hide Pad;
      var pad := Pad(offset, align);
      PadAligns(offset, align);
      forall p: nat | Fits(p, size, align, offset, cap) ensures offset + pad <= p {
        PadIsLeast(offset, align, p);
      }
      if pad > cap - offset {
        return None;
      }
      if size > cap - offset - pad {
        return None;
      }
      assert Fits(offset + pad, size, align, offset, cap);
      ptr := Some(offset + pad);
      offset := offset + pad + size;
      blocks := blocks + [Block(ptr.value, size, align)];
    }

    method Reset()
      requires Valid()
      modifies this`offset, this`blocks
      ensures Valid() && offset == 0 && blocks == []
    {
      offset, blocks := 0, [];
    }

    function Used(): nat
      reads this
    {
      offset
    }

    /** Used and remaining bytes always make up the capacity. */
    function Remaining(): (r: nat)
      reads this
      requires Valid()
      ensures Used() + r == cap
    {
      if offset >= cap then 0 else cap - offset
    }
  }
}
