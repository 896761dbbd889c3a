/** The early bump allocator: one mark that moves up, and behind each block a footer with the size
    of the block and of the padding before it.
 */
module EarlyAllocs {
  import opened Basics

  const AREA_SIZE: nat := 1024 * 1024
  const U32_MAX: nat := 0xFFFF_FFFF

  /** The pattern that is written over new and over freed bytes, as words. */
  const FRESH: nat := 0xADADADAD
  const GONE: nat := 0xEAEAEAEA

  // ---- sizes ----

  /** The bytes that a block takes: its size rounded up to whole words, and the footer. */
  function FullSize(size: nat): nat {
    if size == 0 then 4 else (size - 1) - (size - 1) % 4 + 8
  }

  /** The source refuses sizes that do not fit 32 bits. */
  predicate TooLarge(size: nat) {
    size > U32_MAX || FullSize(size) > U32_MAX
  }

  /** The footer is the word after the last word of the block. */
  lemma FullSizeBounds(size: nat)
    ensures FullSize(size) % 4 == 0 && size + 4 <= FullSize(size) < size + 8
  {
  }

  lemma FullSizeMonotone(a: nat, b: nat)
    requires a <= b
    ensures FullSize(a) <= FullSize(b)
  {
  }

  // ---- alignment ----

  predicate PowerOfTwo(n: nat) {
    n == 1 || (n > 0 && n % 2 == 0 && PowerOfTwo(n / 2))
  }

  ghost predicate AlignedTo(a: nat, align: nat) {
    exists k: nat :: Multiple(k, align) == a
  }

  function Multiple(k: nat, align: nat): nat {
    k * align
  }

  /** The bytes up to the next multiple of `align`. */
  function Padding(mark: nat, align: nat): nat
    requires align > 0
  {
    if mark % align == 0 then 0 else align - mark % align
  }

  lemma PaddingAligns(mark: nat, align: nat)
    requires align > 0
    ensures AlignedTo(mark + Padding(mark, align), align) && Padding(mark, align) < align
  {
    var q, r := mark / align, mark % align;
    assert mark == q * align + r;
    if r == 0 {
      assert Multiple(q, align) == mark + Padding(mark, align);
    } else {
      assert Multiple(q + 1, align) == mark + Padding(mark, align);
    }
  }

  lemma PowerOfTwoIsWords(align: nat)
    requires PowerOfTwo(align) && align >= 4
    ensures align % 4 == 0
  {
    assert PowerOfTwo(align / 2);
  }

  /** Blocks that are aligned to words start and end at word addresses. */
  lemma AlignedToWords(a: nat, align: nat)
    requires AlignedTo(a, align) && align % 4 == 0
    ensures a % 4 == 0
  {
    var k: nat :| Multiple(k, align) == a;
    var m := align / 4;
    assert k * (4 * m) == 4 * (k * m);
  }

  // ---- memory ----

  /** Words by address. A write to any byte of a word may change it. */
  type Memory = map<nat, nat>

  predicate Touches(w: nat, a: nat, n: nat) {
    n > 0 && w < a + n && a < w + 4
  }

  /** Memory after bytes `a` up to `a + n` are overwritten. */
  function Filled(mem: Memory, a: nat, n: nat, junk: nat): Memory {
    map w | w in mem :: if Touches(w, a, n) then junk else mem[w]
  }

  /** A word that shares a byte with the stretch is overwritten, any other keeps its value. */
  lemma FilledIs(mem: Memory, a: nat, n: nat, junk: nat, w: nat, x: nat)
    requires w in mem
    ensures Filled(mem, a, n, junk).Keys == mem.Keys
    ensures w <= x < w + 4 && a <= x < a + n ==> Filled(mem, a, n, junk)[w] == junk
    ensures n == 0 || w + 4 <= a || a + n <= w ==> Filled(mem, a, n, junk)[w] == mem[w]
  {
  }

  /** Words that lie wholly outside the stretch from `lo` to `hi` keep their values. */
  ghost predicate SameOutside(mem: Memory, mem': Memory, lo: nat, hi: nat) {
    forall w :: w in mem && (w + 4 <= lo || hi <= w) ==> w in mem' && mem'[w] == mem[w]
  }

  lemma FooterWritten(mem: Memory, a: nat, v: nat)
    ensures SameOutside(mem, mem[a := v], a, a + 4)
  {
  }

  lemma StretchWritten(mem: Memory, lo: nat, hi: nat, v: nat)
    requires lo + 4 <= hi
    ensures SameOutside(mem, Filled(mem, lo, hi - lo, FRESH)[hi - 4 := v], lo, hi)
  {
  }

  // ---- blocks ----

  /** A live block: from `start` the padding, from its address `size` bytes for the client, and
      the footer in the last word before `end`. A block that was shrunk in place may end later
      than its size needs. */
  datatype Block = Block(start: nat, size: nat, align: nat, end: nat)

  ghost predicate BlockOk(base: nat, mark: nat, mem: Memory, p: nat, b: Block) {
    && base <= b.start <= p && b.end <= mark
    && AlignedTo(p, b.align) && b.align % 4 == 0
    && p + FullSize(b.size) <= b.end && b.end % 4 == 0
    && b.end - 4 in mem && mem[b.end - 4] == b.end - b.start
  }

  ghost predicate Disjoint(blocks: map<nat, Block>) {
    forall p, q :: p in blocks && q in blocks && p != q ==> blocks[p].end <= blocks[q].start || blocks[q].end <= blocks[p].start
  }

  ghost predicate Rep(base: nat, mark: nat, mem: Memory, blocks: map<nat, Block>) {
    && base <= mark <= base + AREA_SIZE
    && (forall p :: p in blocks ==> BlockOk(base, mark, mem, p, blocks[p]))
    && Disjoint(blocks)
  }

  /** Bytes of a client never reach a footer, its own or that of another block. */
  lemma FooterOutOfReach(base: nat, mark: nat, mem: Memory, blocks: map<nat, Block>, p: nat, q: nat, a: nat, n: nat)
    requires Rep(base, mark, mem, blocks) && p in blocks && q in blocks
    requires p <= a && a + n <= p + blocks[p].size
    ensures a + n <= blocks[q].end - 4 || blocks[q].end <= a
    ensures !Touches(blocks[q].end - 4, a, n)
  {
    assert BlockOk(base, mark, mem, p, blocks[p]) && BlockOk(base, mark, mem, q, blocks[q]);
    FullSizeBounds(blocks[p].size);
    FullSizeBounds(blocks[q].size);
  }

  /** Live blocks are aligned, also to words as are their footers, below the mark and apart. */
  lemma LiveBlocksApart(base: nat, mark: nat, mem: Memory, blocks: map<nat, Block>, p: nat, q: nat)
    requires Rep(base, mark, mem, blocks) && p in blocks && q in blocks && p != q
    ensures AlignedTo(p, blocks[p].align) && base <= p && p + blocks[p].size < mark
    ensures p % 4 == 0 && (blocks[p].end - 4) % 4 == 0
    ensures p + blocks[p].size <= q || q + blocks[q].size <= p
  {
    assert BlockOk(base, mark, mem, p, blocks[p]) && BlockOk(base, mark, mem, q, blocks[q]);
    AlignedToWords(p, blocks[p].align);
    FullSizeBounds(blocks[p].size);
    FullSizeBounds(blocks[q].size);
  }

  /** Writing the bytes of a block keeps everything. */
  lemma FillKeeps(base: nat, mark: nat, mem: Memory, blocks: map<nat, Block>, p: nat, a: nat, n: nat, junk: nat)
    requires Rep(base, mark, mem, blocks) && p in blocks
    requires p <= a && a + n <= p + blocks[p].size
    ensures Rep(base, mark, Filled(mem, a, n, junk), blocks)
  {
    forall q | q in blocks
      ensures BlockOk(base, mark, Filled(mem, a, n, junk), q, blocks[q])
    {
      assert BlockOk(base, mark, mem, q, blocks[q]);
      FooterOutOfReach(base, mark, mem, blocks, p, q, a, n);
    }
  }

  /** Without block `p`, from whose end the mark may come back to where it started. */
  lemma RemoveKeeps(base: nat, mark: nat, mem: Memory, blocks: map<nat, Block>, p: nat)
    requires Rep(base, mark, mem, blocks) && p in blocks
    ensures Rep(base, mark, mem, blocks - {p})
    ensures mark == blocks[p].end ==> Rep(base, blocks[p].start, mem, blocks - {p})
  {
    assert BlockOk(base, mark, mem, p, blocks[p]);
    FullSizeBounds(blocks[p].size);
    forall q | q in blocks - {p}
      ensures BlockOk(base, mark, mem, q, blocks[q])
      ensures mark == blocks[p].end ==> BlockOk(base, blocks[p].start, mem, q, blocks[q])
    {
      assert BlockOk(base, mark, mem, q, blocks[q]);
      FullSizeBounds(blocks[q].size);
    }
  }

  /** Blocks below the mark keep their footers when memory changes from the mark on. */
  lemma BelowMarkKeeps(base: nat, mark: nat, mem: Memory, q: nat, b: Block, end: nat, mem': Memory)
    requires BlockOk(base, mark, mem, q, b) && mark <= end
    requires forall w :: w in mem && w + 4 <= mark ==> w in mem' && mem'[w] == mem[w]
    ensures q < b.end <= mark && BlockOk(base, end, mem', q, b)
  {
    FullSizeBounds(b.size);
  }

  /** With a block on top that starts at the mark, and memory changed from there on. */
  lemma TopKeeps(base: nat, mark: nat, mem: Memory, blocks: map<nat, Block>, p: nat, b: Block, mem': Memory)
    requires Rep(base, mark, mem, blocks) && b.start == mark && mark <= b.end <= base + AREA_SIZE
    requires BlockOk(base, b.end, mem', p, b)
    requires forall w :: w in mem && w + 4 <= mark ==> w in mem' && mem'[w] == mem[w]
    ensures p !in blocks && Rep(base, b.end, mem', blocks[p := b])
  {
    forall q | q in blocks
      ensures q < blocks[q].end <= mark && BlockOk(base, b.end, mem', q, blocks[q])
    {
      BelowMarkKeeps(base, mark, mem, q, blocks[q], b.end, mem');
    }
  }

  /** With a new block at `p` that starts at the mark, the footer of which is written. */
  lemma AddKeeps(base: nat, mark: nat, mem: Memory, blocks: map<nat, Block>, p: nat, size: nat, align: nat, end: nat, junk: nat)
    requires Rep(base, mark, mem, blocks) && align % 4 == 0
    requires mark <= p <= end - 4 && AlignedTo(p, align) && end == p + FullSize(size) <= base + AREA_SIZE
    ensures p !in blocks
    ensures Rep(base, end, Filled(mem, mark, end - mark, junk)[end - 4 := end - mark], blocks[p := Block(mark, size, align, end)])
  {
    FullSizeBounds(size);
    AlignedToWords(p, align);
    var mem' := Filled(mem, mark, end - mark, junk)[end - 4 := end - mark];
    TopKeeps(base, mark, mem, blocks, p, Block(mark, size, align, end), mem');
  }

  lemma ResizedOk(base: nat, mark: nat, mem: Memory, p: nat, b: Block, size: nat, end: nat)
    requires BlockOk(base, mark, mem, p, b) && end == p + FullSize(size)
    ensures b.start <= p < end - 3
    ensures BlockOk(base, end, mem[end - 4 := end - b.start], p, b.(size := size, end := end))
  {
    EndIsWord(p, b.align, size);
  }

  lemma EndIsWord(p: nat, align: nat, size: nat)
    requires AlignedTo(p, align) && align % 4 == 0
    ensures (p + FullSize(size)) % 4 == 0 && p + FullSize(size) >= p + 4
  {
    AlignedToWords(p, align);
    FullSizeBounds(size);
    SumOfWords(p, FullSize(size));
  }

  lemma SumOfWords(a: nat, b: nat)
    requires a % 4 == 0 && b % 4 == 0
    ensures (a + b) % 4 == 0
  {
  }

  /** With the last block grown or shrunk to a new size, its footer moved. */
  lemma ResizeLastKeeps(base: nat, mark: nat, mem: Memory, blocks: map<nat, Block>, p: nat, size: nat, end: nat)
    requires Rep(base, mark, mem, blocks) && p in blocks && blocks[p].end == mark
    requires end == p + FullSize(size) <= base + AREA_SIZE && blocks[p].start <= p <= end - 4
    ensures Rep(base, end, mem[end - 4 := end - blocks[p].start], blocks[p := blocks[p].(size := size, end := end)])
  {
    var b := blocks[p];
    var b' := b.(size := size, end := end);
    var mem' := mem[end - 4 := end - b.start];
    ResizedOk(base, mark, mem, p, b, size, end);
    RemoveKeeps(base, mark, mem, blocks, p);
    TopKeeps(base, b.start, mem, blocks - {p}, p, b', mem');
    assert (blocks - {p})[p := b'] == blocks[p := b'];
  }

  /** With a block shrunk that is not the last: its footer stays where it is. */
  lemma ShrinkInPlaceKeeps(base: nat, mark: nat, mem: Memory, blocks: map<nat, Block>, p: nat, size: nat)
    requires Rep(base, mark, mem, blocks) && p in blocks && size <= blocks[p].size
    ensures Rep(base, mark, mem, blocks[p := blocks[p].(size := size)])
  {
    assert BlockOk(base, mark, mem, p, blocks[p]);
    FullSizeMonotone(size, blocks[p].size);
    forall q | q in blocks && q != p
      ensures BlockOk(base, mark, mem, q, blocks[q])
    {
    }
  }

  /** Bytes from the mark on belong to no block. */
  lemma FillAboveKeeps(base: nat, mark: nat, mem: Memory, blocks: map<nat, Block>, n: nat, junk: nat)
    requires Rep(base, mark, mem, blocks)
    ensures Rep(base, mark, Filled(mem, mark, n, junk), blocks)
  {
    forall q | q in blocks
      ensures BlockOk(base, mark, Filled(mem, mark, n, junk), q, blocks[q])
    {
      assert BlockOk(base, mark, mem, q, blocks[q]);
      FullSizeBounds(blocks[q].size);
    }
  }

  ghost predicate Sealed(base: nat, mark: nat, mem: Memory, blocks: map<nat, Block>) {
    forall k: nat {:trigger Look(k)} :: Look(k) ==> Rep(base, mark, mem, blocks)
  }

  lemma LiveFacts(base: nat, mark: nat, mem: Memory, blocks: map<nat, Block>, p: nat)
    requires Sealed(base, mark, mem, blocks) && p in blocks
    ensures var b := blocks[p];
            && base <= b.start <= p && p + FullSize(b.size) <= b.end <= mark <= base + AREA_SIZE
            && b.end - 4 in mem && mem[b.end - 4] == b.end - b.start
  {
    assert Look(0);
    assert BlockOk(base, mark, mem, p, blocks[p]);
  }

  lemma AllocDone(base: nat, mark: nat, mem: Memory, blocks: map<nat, Block>, p: nat, size: nat, align: nat, end: nat)
    requires Sealed(base, mark, mem, blocks) && align % 4 == 0
    requires mark <= p && AlignedTo(p, align) && end == p + FullSize(size) <= base + AREA_SIZE
    ensures p !in blocks && end >= mark + 4
    ensures var mem' := Filled(mem, mark, end - mark, FRESH)[end - 4 := end - mark];
            Sealed(base, end, mem', blocks[p := Block(mark, size, align, end)]) && SameOutside(mem, mem', mark, end)
  {
    assert Look(0);
    FullSizeBounds(size);
    AddKeeps(base, mark, mem, blocks, p, size, align, end, FRESH);
    StretchWritten(mem, mark, end, end - mark);
  }

  lemma WriteDone(base: nat, mark: nat, mem: Memory, blocks: map<nat, Block>, p: nat, a: nat, n: nat, junk: nat)
    requires Sealed(base, mark, mem, blocks) && p in blocks && p <= a && a + n <= p + blocks[p].size
    ensures Sealed(base, mark, Filled(mem, a, n, junk), blocks)
    ensures forall q :: q in blocks ==> 4 <= blocks[q].end && blocks[q].end - 4 in mem && Filled(mem, a, n, junk)[blocks[q].end - 4] == mem[blocks[q].end - 4]
  {
    assert Look(0);
    FillKeeps(base, mark, mem, blocks, p, a, n, junk);
    forall q | q in blocks
      ensures 4 <= blocks[q].end && blocks[q].end - 4 in mem && Filled(mem, a, n, junk)[blocks[q].end - 4] == mem[blocks[q].end - 4]
    {
      LiveFacts(base, mark, mem, blocks, q);
      FullSizeBounds(blocks[q].size);
      FooterOutOfReach(base, mark, mem, blocks, p, q, a, n);
    }
  }

  lemma FreeDone(base: nat, mark: nat, mem: Memory, blocks: map<nat, Block>, p: nat)
    requires Sealed(base, mark, mem, blocks) && p in blocks
    ensures Sealed(base, if mark == p + FullSize(blocks[p].size) then blocks[p].start else mark, mem, blocks - {p})
    ensures mark == p + FullSize(blocks[p].size) ==> blocks[p].end == mark
  {
    assert Look(0);
    LiveFacts(base, mark, mem, blocks, p);
    RemoveKeeps(base, mark, mem, blocks, p);
  }

  lemma ResizeSealed(base: nat, mark: nat, mem: Memory, blocks: map<nat, Block>, p: nat, size: nat, end: nat)
    requires Sealed(base, mark, mem, blocks) && p in blocks && blocks[p].end == mark
    requires end == p + FullSize(size) <= base + AREA_SIZE && blocks[p].start <= p <= end - 4
    ensures Sealed(base, end, mem[end - 4 := end - blocks[p].start], blocks[p := blocks[p].(size := size, end := end)])
  {
    assert Look(0);
    ResizeLastKeeps(base, mark, mem, blocks, p, size, end);
  }

  lemma ResizeDone(base: nat, mark: nat, mem: Memory, blocks: map<nat, Block>, p: nat, size: nat, end: nat)
    requires Sealed(base, mark, mem, blocks) && p in blocks && mark == p + FullSize(blocks[p].size)
    requires end == p + FullSize(size) <= base + AREA_SIZE
    ensures end >= 4 && base <= end && end >= blocks[p].start
    ensures var footer := end - blocks[p].start;
            && Sealed(base, end, mem[end - 4 := footer], blocks[p := blocks[p].(size := size, end := end)])
            && SameOutside(mem, mem[end - 4 := footer], end - 4, end)
  {
    LiveFacts(base, mark, mem, blocks, p);
    FullSizeBounds(size);
    ResizeSealed(base, mark, mem, blocks, p, size, end);
    FooterWritten(mem, end - 4, end - blocks[p].start);
  }

  lemma AboveDone(base: nat, mark: nat, mem: Memory, blocks: map<nat, Block>, n: nat)
    requires Sealed(base, mark, mem, blocks)
    ensures Sealed(base, mark, Filled(mem, mark, n, FRESH), blocks)
  {
    assert Look(0);
    FillAboveKeeps(base, mark, mem, blocks, n, FRESH);
  }

  lemma InPlaceDone(base: nat, mark: nat, mem: Memory, blocks: map<nat, Block>, p: nat, size: nat)
    requires Sealed(base, mark, mem, blocks) && p in blocks && size <= blocks[p].size
    ensures Sealed(base, mark, mem, blocks[p := blocks[p].(size := size)])
  {
    assert Look(0);
    ShrinkInPlaceKeeps(base, mark, mem, blocks, p, size);
  }

  // ---- the allocator ----

  datatype Regrown = Panicked | CannotGrow | Grown

  class EarlyAllocator {
    const base: nat
    var mark: nat
    var mem: Memory
    ghost var blocks: map<nat, Block>

    ghost predicate Valid()
      reads this
    {
      base <= mark <= base + AREA_SIZE && Sealed(base, mark, mem, blocks)
    }

    constructor (area: nat, memory: Memory)
      requires forall w :: w in memory ==> w % 4 == 0
      ensures Valid() && base == area && mark == area && mem == memory && blocks == map[]
    {
      base, mark, mem, blocks := area, area, memory, map[];
    }

    /** Places a block at the first suitable address from the mark on. Fails, as the source panics,
        exactly when a size does not fit 32 bits or the area is too small. */
    method Alloc(size: nat, align: nat) returns (r: Option<nat>)
      requires Valid() && PowerOfTwo(align)
      modifies this
      ensures Valid()
      ensures var a := if align < 4 then 4 else align;
              r.None? <==> a > U32_MAX || TooLarge(size) || Padding(old(mark), a) + FullSize(size) > U32_MAX
                           || old(mark) + Padding(old(mark), a) + FullSize(size) > base + AREA_SIZE
      ensures r.None? ==> mark == old(mark) && blocks == old(blocks) && mem == old(mem)
      ensures SameOutside(old(mem), mem, old(mark), mark)
      ensures r.Some? ==>
                var a := if align < 4 then 4 else align;
                && r.value == old(mark) + Padding(old(mark), a) && AlignedTo(r.value, a) && r.value % 4 == 0
                && r.value !in old(blocks) && mark == r.value + FullSize(size)
                && blocks == old(blocks)[r.value := Block(old(mark), size, a, mark)]
    {
      var a := if align < 4 then 4 else align;
      var full := FullSize(size);
      if a > U32_MAX || TooLarge(size) {
        return None;
      }
      var pad := Padding(mark, a);
      if pad + full > U32_MAX || base + AREA_SIZE - mark < pad + full {
        return None;
      }
      PaddingAligns(mark, a);
      PowerOfTwoIsWords(a);
      var p := mark + pad;
      Put(p, size, a, p + full);
      r := Some(p);
    }

    /** Puts a block at an aligned address and writes the footer. */
    method Put(p: nat, size: nat, a: nat, end: nat)
      requires Valid() && a % 4 == 0 && mark <= p && AlignedTo(p, a) && end == p + FullSize(size) <= base + AREA_SIZE
      modifies this
      ensures Valid() && p % 4 == 0 && p !in old(blocks) && mark == end
      ensures blocks == old(blocks)[p := Block(old(mark), size, a, end)]
      ensures SameOutside(old(mem), mem, old(mark), mark)
    {
      AlignedToWords(p, a);
      AllocDone(base, mark, mem, blocks, p, size, a, end);
      mem := Filled(mem, mark, end - mark, FRESH)[end - 4 := end - mark];
      blocks := blocks[p := Block(mark, size, a, end)];
      mark := end;
    }

    /** A client writes to its block. */
    method ClientWrite(p: nat, offset: nat, n: nat, v: nat)
      requires Valid() && p in blocks && offset + n <= blocks[p].size
      modifies this
      ensures Valid() && mark == old(mark) && blocks == old(blocks)
      ensures SameOutside(old(mem), mem, p + offset, p + offset + n)
      ensures forall q :: q in blocks ==> blocks[q].end - 4 in mem && blocks[q].end - 4 in old(mem) && mem[blocks[q].end - 4] == old(mem)[blocks[q].end - 4]
    {
      WriteDone(base, mark, mem, blocks, p, p + offset, n, v);
      mem := Filled(mem, p + offset, n, v);
    }

    /** Frees a live block. When it ends at the mark, the mark returns to where it was before the
        padding of the block; otherwise the space is lost. */
    method Free(p: nat, size: nat)
      requires Valid() && p in blocks && blocks[p].size == size
      modifies this
      ensures Valid() && blocks == old(blocks) - {p}
      ensures mark == if old(mark) == p + FullSize(size) then old(blocks)[p].start else old(mark)
      ensures SameOutside(old(mem), mem, p, p + size)
    {
      WriteDone(base, mark, mem, blocks, p, p, size, GONE);
      mem := Filled(mem, p, size, GONE);
      LiveFacts(base, mark, mem, blocks, p);
      FreeDone(base, mark, mem, blocks, p);
      var full := FullSize(size);
      if mark == p + full {
        mark := mark - mem[p + full - 4];
      }
      blocks := blocks - {p};
    }

    /** Moves the mark and the footer of the last block to a new end. */
    method MoveEnd(p: nat, newSize: nat, end: nat, footer: nat)
      requires Valid() && p in blocks && mark == p + FullSize(blocks[p].size)
      requires end == p + FullSize(newSize) <= base + AREA_SIZE && footer == end - blocks[p].start
      modifies this
      ensures Valid() && mark == end && end >= 4 && SameOutside(old(mem), mem, end - 4, end)
      ensures blocks == old(blocks)[p := old(blocks)[p].(size := newSize, end := end)]
    {
      ResizeDone(base, mark, mem, blocks, p, newSize, end);
      mark := end;
      mem := mem[end - 4 := footer];
      blocks := blocks[p := blocks[p].(size := newSize, end := end)];
    }

    /** Grows a live block in place when it ends at the mark; there is no other way to grow. Panics
        exactly when the size is too large or the area too small: within the area the new footer
        always fits its word. */
    method ReallocGrow(p: nat, oldSize: nat, newSize: nat) returns (r: Regrown)
      requires Valid() && p in blocks && blocks[p].size == oldSize && oldSize < newSize
      modifies this
      ensures Valid()
      ensures r.CannotGrow? <==> !TooLarge(newSize) && old(mark) != p + FullSize(oldSize)
      ensures r.Panicked? <==>
                || TooLarge(newSize)
                || (old(mark) == p + FullSize(oldSize) && p + FullSize(newSize) > base + AREA_SIZE)
      ensures r.Grown? ==> blocks == old(blocks)[p := old(blocks)[p].(size := newSize, end := mark)] && mark == p + FullSize(newSize)
      ensures !r.Grown? ==> mark == old(mark) && blocks == old(blocks) && mem == old(mem)
      ensures SameOutside(old(mem), mem, p + oldSize, mark)
    {
      LiveFacts(base, mark, mem, blocks, p);
      FullSizeMonotone(oldSize, newSize);
      var before, after := FullSize(oldSize), FullSize(newSize);
      if TooLarge(newSize) {
        return Panicked;
      }
      if mark != p + before {
        return CannotGrow;
      }
      if base + AREA_SIZE - mark < after - before {
        return Panicked;
      }
      var stored := mem[p + before - 4];
      if stored - before + after > U32_MAX {
        return Panicked;
      }
      AboveDone(base, mark, mem, blocks, after - before);
      mem := Filled(mem, mark, after - before, FRESH);
      MoveEnd(p, newSize, p + after, stored - before + after);
      r := Grown;
    }

    /** Shrinks a live block, and gives space back when it ends at the mark. */
    method ReallocShrink(p: nat, oldSize: nat, newSize: nat)
      requires Valid() && p in blocks && blocks[p].size == oldSize && newSize < oldSize
      modifies this
      ensures Valid()
      ensures var b := old(blocks)[p]; var last := old(mark) == p + FullSize(oldSize);
              && mark == (if last then p + FullSize(newSize) else old(mark))
              && blocks == old(blocks)[p := b.(size := newSize, end := if last then mark else b.end)]
      ensures SameOutside(old(mem), mem, p + newSize, p + FullSize(oldSize))
    {
      WriteDone(base, mark, mem, blocks, p, p + newSize, oldSize - newSize, GONE);
      mem := Filled(mem, p + newSize, oldSize - newSize, GONE);
      LiveFacts(base, mark, mem, blocks, p);
      FullSizeMonotone(newSize, oldSize);
      var before, after := FullSize(oldSize), FullSize(newSize);
      if mark == p + before {
        MoveEnd(p, newSize, p + after, mem[p + before - 4] - before + after);
      } else {
        InPlaceDone(base, mark, mem, blocks, p, newSize);
        blocks := blocks[p := blocks[p].(size := newSize)];
      }
    }
  }

  /** Allocating and freeing at once puts the mark back, padding included. */
  method AllocThenFree(alloc: EarlyAllocator, size: nat, align: nat)
    requires alloc.Valid() && PowerOfTwo(align)
    modifies alloc
    ensures alloc.Valid() && alloc.mark == old(alloc.mark) && alloc.blocks == old(alloc.blocks)
  {
    ghost var blocks := alloc.blocks;
    var r := alloc.Alloc(size, align);
    if r.Some? {
      alloc.Free(r.value, size);
      assert alloc.blocks == blocks;
    }
  }
}
