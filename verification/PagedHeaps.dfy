/** The page-based allocator: a region of addresses from the virtual allocator, backed page by
    page with frames that are taken and given back in batches. Frames that page tables and the
    allocator's own bookkeeping use are not counted here.
 */
module PagedHeaps {
  import opened Basics
  import opened Regions
  import opened VirtualAlloc
  import F = Frames

  const BATCH: nat := 16

  type Frame = F.Frame

  datatype Mapping = Mapping(frame: Frame, writeable: bool)

  datatype Outcome = Failed | Dangling | Block(start: int, bytes: nat)

  function PageCount(size: nat): nat {
    (size + PAGE_SIZE - 1) / PAGE_SIZE
  }

  function Page(start: int, i: nat): int {
    start + i * PAGE_SIZE
  }

  function Span(start: int, n: nat): Region {
    Region(start, start + n * PAGE_SIZE)
  }

  // ---- mappings of consecutive pages ----

  /** `m` with the pages from `start` on mapped to `fs`. */
  function Mapped(m: map<int, Mapping>, start: int, fs: seq<Frame>): map<int, Mapping> {
    if fs == [] then m
    else Mapped(m, start, fs[..|fs| - 1])[Page(start, |fs| - 1) := Mapping(fs[|fs| - 1], true)]
  }

  predicate IsPage(start: int, n: nat, p: int) {
    exists i: nat :: i < n && p == Page(start, i)
  }

  lemma {:induction false} MappedAt(m: map<int, Mapping>, start: int, fs: seq<Frame>, i: nat)
    requires i < |fs|
    ensures Page(start, i) in Mapped(m, start, fs) && Mapped(m, start, fs)[Page(start, i)] == Mapping(fs[i], true)
  {
    if i < |fs| - 1 {
      MappedAt(m, start, fs[..|fs| - 1], i);
    }
  }

  lemma {:induction false} MappedElsewhere(m: map<int, Mapping>, start: int, fs: seq<Frame>, p: int)
    requires !IsPage(start, |fs|, p)
    ensures p in Mapped(m, start, fs) <==> p in m
    ensures p in m ==> Mapped(m, start, fs)[p] == m[p]
  {
    if fs != [] {
      assert !IsPage(start, |fs| - 1, p);
      assert p != Page(start, |fs| - 1);
      MappedElsewhere(m, start, fs[..|fs| - 1], p);
    }
  }

  /** `m` without the first `n` pages from `start` on. */
  function Unmapped(m: map<int, Mapping>, start: int, n: nat): map<int, Mapping> {
    if n == 0 then m else Unmapped(m, start, n - 1) - {Page(start, n - 1)}
  }

  lemma {:induction false} UnmappedIs(m: map<int, Mapping>, start: int, n: nat, p: int)
    ensures p in Unmapped(m, start, n) <==> p in m && !IsPage(start, n, p)
    ensures p in Unmapped(m, start, n) ==> Unmapped(m, start, n)[p] == m[p]
  {
    if n > 0 {
      UnmappedIs(m, start, n - 1, p);
      if IsPage(start, n, p) {
        var i: nat :| i < n && p == Page(start, i);
        assert i < n - 1 ==> IsPage(start, n - 1, p);
      } else {
        assert p != Page(start, n - 1) && !IsPage(start, n - 1, p);
      }
      if IsPage(start, n - 1, p) {
        var i: nat :| i < n - 1 && p == Page(start, i);
        assert IsPage(start, n, p);
      }
    } else {
      assert !IsPage(start, 0, p);
    }
  }

  /** Unmapping undoes mapping, where nothing was mapped before. */
  lemma UnmapUndoesMap(m: map<int, Mapping>, start: int, fs: seq<Frame>)
    requires forall i: nat :: i < |fs| ==> Page(start, i) !in m
    ensures Unmapped(Mapped(m, start, fs), start, |fs|) == m
  {
    var u := Unmapped(Mapped(m, start, fs), start, |fs|);
    forall p
      ensures (p in u <==> p in m) && (p in u ==> u[p] == m[p])
    {
      UnmappedIs(Mapped(m, start, fs), start, |fs|, p);
      if !IsPage(start, |fs|, p) {
        MappedElsewhere(m, start, fs, p);
      }
    }
  }

  /** A page of the region is one of its addresses. */
  lemma PageInSpan(start: int, n: nat, i: nat)
    requires i < n
    ensures Has(Span(start, n), Page(start, i))
    ensures Page(start, i) in Addrs(Span(start, n))
  {
  }

  // ---- frames taken from the top of a stack ----

  /** The top `n` frames, the topmost first. */
  function Top(stack: seq<Frame>, n: nat): seq<Frame>
    requires n <= |stack|
  {
    seq(n, i requires 0 <= i < n => stack[|stack| - 1 - i])
  }

  /** Taking `k` more frames after the first `n`. */
  lemma TopMore(stack: seq<Frame>, n: nat, k: nat, more: seq<Frame>)
    requires n + k <= |stack| && |more| == k
    requires forall i :: 0 <= i < k ==> more[i] == stack[|stack| - n - 1 - i]
    ensures Top(stack, n) + more == Top(stack, n + k)
  {
  }

  ghost function Elems(s: seq<Frame>): set<Frame> {
    set f | f in s
  }

  /** Giving back what was taken restores the set of free frames. */
  lemma GiveBack(stack: seq<Frame>, n: nat)
    requires n <= |stack|
    ensures Elems(stack[..|stack| - n] + Top(stack, n)) == Elems(stack)
  {
    var t, rest := Top(stack, n), stack[..|stack| - n];
    forall f
      ensures f in rest + t <==> f in stack
    {
      if f in stack {
        var i :| 0 <= i < |stack| && stack[i] == f;
        if i < |stack| - n {
          assert rest[i] == f;
        } else {
          assert t[|stack| - 1 - i] == f;
        }
      }
    }
  }

  // ---- the allocator ----

  /** The kernel's mappings and the frames behind them. */
  class Backing {
    const frames: F.FrameAllocator
    var mapping: map<int, Mapping>

    constructor (fs: F.FrameAllocator, m: map<int, Mapping>)
      ensures frames == fs && mapping == m
    {
      frames, mapping := fs, m;
    }

    /** Maps one batch. None of its pages is mapped yet, so the check on each of them passes. */
    method MapBatch(start: int, k: nat, fs: seq<Frame>, ghost m0: map<int, Mapping>, ghost got: seq<Frame>)
      requires |got| == k && mapping == Mapped(m0, start, got)
      requires forall i: nat :: i < k + |fs| ==> Page(start, i) !in m0
      modifies this`mapping
      ensures mapping == Mapped(m0, start, got + fs)
    {
      assert got + fs[..0] == got;
      for i := 0 to |fs|
        invariant |got + fs[..i]| == k + i && mapping == Mapped(m0, start, got + fs[..i])
      {
        NotYetMapped(m0, start, got + fs[..i]);
        assert Page(start, k + i) !in mapping;
        mapping := mapping[Page(start, k + i) := Mapping(fs[i], true)];
        assert (got + fs[..i + 1])[..k + i] == got + fs[..i];
      }
      assert fs[..|fs|] == fs;
    }

    /** Reads back the frames of a batch of mapped pages. */
    method Lookup(start: int, k: nat, n: nat) returns (fs: seq<Frame>)
      requires forall i: nat :: k <= i < k + n ==> Page(start, i) in mapping
      ensures |fs| == n && forall i :: 0 <= i < n ==> fs[i] == mapping[Page(start, k + i)].frame
    {
      fs := [];
      for i := 0 to n
        invariant |fs| == i && forall j :: 0 <= j < i ==> Page(start, k + j) in mapping && fs[j] == mapping[Page(start, k + j)].frame
      {
        fs := fs + [mapping[Page(start, k + i)].frame];
      }
    }

    method Unmap(start: int, n: nat)
      modifies this`mapping
      ensures mapping == Unmapped(old(mapping), start, n)
    {
      for i := 0 to n
        invariant mapping == Unmapped(old(mapping), start, i)
      {
        mapping := mapping - {Page(start, i)};
      }
    }

    /** Gives the frames of the first `k` pages back, in batches, in page order. */
    method GiveBackFrames(start: int, k: nat, ghost got: seq<Frame>)
      requires frames.Valid() && |got| == k
      requires forall i: nat :: i < k ==> Page(start, i) in mapping && mapping[Page(start, i)].frame == got[i]
      requires Distinct(got) && forall f :: f in got ==> f in frames.mem && f !in frames.stack
      modifies frames
      ensures frames.Valid() && frames.stack == old(frames.stack) + got
      ensures frames.mem.Keys == old(frames.mem.Keys)
      ensures forall g :: g in frames.mem && g !in frames.stack ==> frames.mem[g] == old(frames.mem[g])
    {
      var freed := 0;
      while freed < k
        invariant freed <= k && frames.Valid() && frames.stack == old(frames.stack) + got[..freed]
        invariant frames.mem.Keys == old(frames.mem.Keys)
        invariant forall g :: g in frames.mem && g !in frames.stack ==> frames.mem[g] == old(frames.mem[g])
      {
        var batch := Least(k - freed, BATCH);
        var fs := Lookup(start, freed, batch);
        assert fs == got[freed..freed + batch];
        BatchIsLoose(got, old(frames.stack), freed, batch);
        frames.FreeMany(fs);
        NextStretch(old(frames.stack), got, freed, freed + batch);
        freed := freed + batch;
      }
      assert got[..k] == got;
    }

    /** Reads back the frames of a batch of pages and unmaps each as it goes. */
    method TakeOff(start: int, k: nat, n: nat, ghost m0: map<int, Mapping>, ghost got: seq<Frame>) returns (fs: seq<Frame>)
      requires mapping == Unmapped(m0, start, k) && k + n <= |got|
      requires forall i: nat :: i < |got| ==> Page(start, i) in m0 && m0[Page(start, i)].frame == got[i]
      modifies this`mapping
      ensures mapping == Unmapped(m0, start, k + n) && fs == got[k..k + n]
    {
      fs := [];
      for i := 0 to n
        invariant mapping == Unmapped(m0, start, k + i) && fs == got[k..k + i]
      {
        UnmappedIs(m0, start, k + i, Page(start, k + i));
        fs := fs + [mapping[Page(start, k + i)].frame];
        mapping := mapping - {Page(start, k + i)};
      }
    }

    /** Unmaps `n` pages and gives their frames back, in batches, in page order. */
    method Release(start: int, n: nat, ghost got: seq<Frame>)
      requires frames.Valid() && |got| == n
      requires forall i: nat :: i < n ==> Page(start, i) in mapping && mapping[Page(start, i)].frame == got[i]
      requires Distinct(got) && forall f :: f in got ==> f in frames.mem && f !in frames.stack
      modifies this`mapping, frames
      ensures frames.Valid() && frames.stack == old(frames.stack) + got
      ensures mapping == Unmapped(old(mapping), start, n)
      ensures frames.mem.Keys == old(frames.mem.Keys)
      ensures forall g :: g in frames.mem && g !in frames.stack ==> frames.mem[g] == old(frames.mem[g])
    {
      ghost var m0 := mapping;
      var freed := 0;
      while freed < n
        invariant freed <= n && frames.Valid() && frames.stack == old(frames.stack) + got[..freed]
        invariant mapping == Unmapped(m0, start, freed)
        invariant frames.mem.Keys == old(frames.mem.Keys)
        invariant forall g :: g in frames.mem && g !in frames.stack ==> frames.mem[g] == old(frames.mem[g])
      {
        var batch := Least(n - freed, BATCH);
        var fs := TakeOff(start, freed, batch, m0, got);
        BatchIsLoose(got, old(frames.stack), freed, batch);
        frames.FreeMany(fs);
        NextStretch(old(frames.stack), got, freed, freed + batch);
        freed := freed + batch;
      }
      assert got[..n] == got;
    }

    /** Maps `n` pages to frames off the top, or leaves free frames and mappings as they were. */
    method Back(start: int, n: nat) returns (ok: bool)
      requires frames.Valid() && (forall i: nat :: i < n ==> Page(start, i) !in mapping)
      modifies this`mapping, frames
      ensures frames.Valid() && frames.mem.Keys == old(frames.mem.Keys)
      ensures ok <==> n <= |old(frames.stack)|
      ensures ok ==> mapping == Mapped(old(mapping), start, Top(old(frames.stack), n))
      ensures ok ==> frames.stack == old(frames.stack)[..|old(frames.stack)| - n]
      ensures !ok ==> mapping == old(mapping) && Elems(frames.stack) == Elems(old(frames.stack))
      ensures forall g :: g in frames.mem && g !in old(frames.stack) ==> frames.mem[g] == old(frames.mem[g])
    {
      ghost var m0, s := mapping, frames.stack;
      FramesKnown(frames);
      var k := 0;
      while k < n
        invariant k <= n && k <= |s| && frames.Valid() && frames.mem == old(frames.mem)
        invariant mapping == Mapped(m0, start, Top(s, k)) && frames.stack == s[..|s| - k]
      {
        var batch := Least(n - k, BATCH);
        ok := TakeBatch(start, k, batch, m0, s);
        if !ok {
          RollBack(start, k, m0, s);
          return;
        }
        k := k + batch;
      }
      ok := true;
    }

    /** Takes frames for one batch of pages and maps them, or changes nothing. */
    method TakeBatch(start: int, k: nat, batch: nat, ghost m0: map<int, Mapping>, ghost s: seq<Frame>) returns (ok: bool)
      requires frames.Valid() && k <= |s| && frames.stack == s[..|s| - k]
      requires mapping == Mapped(m0, start, Top(s, k)) && (forall i: nat :: i < k + batch ==> Page(start, i) !in m0)
      modifies this`mapping, frames
      ensures frames.Valid() && frames.mem == old(frames.mem)
      ensures ok <==> k + batch <= |s|
      ensures ok ==> mapping == Mapped(m0, start, Top(s, k + batch)) && frames.stack == s[..|s| - k - batch]
      ensures !ok ==> mapping == old(mapping) && frames.stack == old(frames.stack)
    {
      var buffer := new Frame[batch];
      ok := frames.AllocMany(buffer);
      if ok {
        TopMore(s, k, batch, buffer[..]);
        MapBatch(start, k, buffer[..], m0, Top(s, k));
      }
    }

    method RollBack(start: int, k: nat, ghost m0: map<int, Mapping>, ghost s: seq<Frame>)
      requires frames.Valid() && k <= |s| && frames.stack == s[..|s| - k] && Distinct(s) && (forall f :: f in s ==> f in frames.mem)
      requires mapping == Mapped(m0, start, Top(s, k)) && (forall i: nat :: i < k ==> Page(start, i) !in m0)
      modifies this`mapping, frames
      ensures frames.Valid() && frames.mem.Keys == old(frames.mem.Keys)
      ensures mapping == m0 && Elems(frames.stack) == Elems(s)
      ensures forall g :: g in frames.mem && g !in s ==> frames.mem[g] == old(frames.mem[g])
    {
      TopIsLoose(s, k);
      forall i: nat | i < k
        ensures Page(start, i) in mapping && mapping[Page(start, i)].frame == Top(s, k)[i]
      {
        MappedAt(m0, start, Top(s, k), i);
      }
      GiveBackFrames(start, k, Top(s, k));
      GiveBack(s, k);
      assert forall g :: g in frames.stack <==> g in Elems(frames.stack);
      UnmapUndoesMap(m0, start, Top(s, k));
      Unmap(start, k);
    }
  }

  /** The free frames are distinct frames of memory. */
  lemma FramesKnown(frames: F.FrameAllocator)
    requires frames.Valid()
    ensures Distinct(frames.stack) && forall f :: f in frames.stack ==> f in frames.mem
  {
    assert Look(0);
  }

  lemma NotYetMapped(m0: map<int, Mapping>, start: int, got: seq<Frame>)
    ensures Page(start, |got|) !in m0 ==> Page(start, |got|) !in Mapped(m0, start, got)
  {
    assert !IsPage(start, |got|, Page(start, |got|));
    MappedElsewhere(m0, start, got, Page(start, |got|));
  }

  lemma NextStretch(stack: seq<Frame>, got: seq<Frame>, i: nat, j: nat)
    requires i <= j <= |got|
    ensures stack + got[..i] + got[i..j] == stack + got[..j]
  {
    assert got[..i] + got[i..j] == got[..j];
  }

  lemma BatchIsLoose(got: seq<Frame>, stack: seq<Frame>, k: nat, n: nat)
    requires Distinct(got) && k + n <= |got| && forall f :: f in got ==> f !in stack
    ensures forall f :: f in got[k..k + n] ==> f in got && f !in stack + got[..k]
    ensures Distinct(got[k..k + n])
  {
  }

  lemma TopIsLoose(s: seq<Frame>, k: nat)
    requires Distinct(s) && k <= |s|
    ensures Distinct(Top(s, k))
    ensures forall f :: f in Top(s, k) ==> f in s && f !in s[..|s| - k]
  {
  }

  // ---- what every run of the heap keeps ----

  /** An owned page is mapped, writeable, to a frame that is not free, and none of its addresses
      is free. */
  ghost predicate OwnedOk(free: iset<int>, mapping: map<int, Mapping>, owned: map<int, Mapping>, stack: seq<Frame>, frames: set<Frame>, p: int)
    requires p in owned
  {
    && p % PAGE_SIZE == 0 && Addrs(Span(p, 1)) !! free
    && p in mapping && mapping[p] == owned[p] && owned[p].writeable
    && owned[p].frame in frames && owned[p].frame !in stack
  }

  ghost predicate Separate(owned: map<int, Mapping>) {
    forall p, q :: p in owned && q in owned && owned[p].frame == owned[q].frame ==> p == q
  }

  /** Free addresses are unmapped, and owned pages are backed by frames of their own. */
  ghost predicate HeapInv(free: iset<int>, mapping: map<int, Mapping>, owned: map<int, Mapping>, stack: seq<Frame>, frames: set<Frame>) {
    forall k: nat {:trigger Peek(k)} :: Peek(k) ==> HeapOk(free, mapping, owned, stack, frames)
  }

  ghost predicate HeapOk(free: iset<int>, mapping: map<int, Mapping>, owned: map<int, Mapping>, stack: seq<Frame>, frames: set<Frame>) {
    && (forall p :: p in mapping ==> p !in free && p % PAGE_SIZE == 0)
    && (forall p :: p in owned ==> OwnedOk(free, mapping, owned, stack, frames, p))
    && Separate(owned)
  }

  lemma SpanParts(start: int, n: nat, i: nat)
    requires i < n && start % PAGE_SIZE == 0
    ensures Page(start, i) % PAGE_SIZE == 0
    ensures Addrs(Span(Page(start, i), 1)) <= Addrs(Span(start, n))
  {
  }

  /** The pages of a free span are not mapped. */
  lemma SpanIsUnmapped(free: iset<int>, mapping: map<int, Mapping>, owned: map<int, Mapping>, stack: seq<Frame>, frames: set<Frame>, start: int, n: nat)
    requires HeapInv(free, mapping, owned, stack, frames) && Addrs(Span(start, n)) <= free
    ensures forall i: nat :: i < n ==> Page(start, i) !in mapping
  {
    assert Peek(0);
    FreeIsUnmapped(free, mapping, start, n);
  }

  lemma FreeIsUnmapped(free: iset<int>, mapping: map<int, Mapping>, start: int, n: nat)
    requires forall p :: p in mapping ==> p !in free
    requires Addrs(Span(start, n)) <= free
    ensures forall i: nat :: i < n ==> Page(start, i) !in mapping
  {
    forall i: nat | i < n
      ensures Page(start, i) !in mapping
    {
      PageInSpan(start, n, i);
    }
  }

  lemma MappedCases(m: map<int, Mapping>, start: int, fs: seq<Frame>, p: int) returns (i: nat)
    requires p in Mapped(m, start, fs)
    ensures if i < |fs| then p == Page(start, i) && Mapped(m, start, fs)[p] == Mapping(fs[i], true)
            else p in m && Mapped(m, start, fs)[p] == m[p] && !IsPage(start, |fs|, p)
  {
    if IsPage(start, |fs|, p) {
      i :| i < |fs| && p == Page(start, i);
      MappedAt(m, start, fs, i);
    } else {
      i := |fs|;
      MappedElsewhere(m, start, fs, p);
    }
  }

  lemma GrowKeeps(free: iset<int>, mapping: map<int, Mapping>, owned: map<int, Mapping>, stack: seq<Frame>, frames: set<Frame>, start: int, n: nat)
    requires HeapInv(free, mapping, owned, stack, frames)
    requires Distinct(stack) && (forall f :: f in stack ==> f in frames) && n <= |stack|
    requires start % PAGE_SIZE == 0 && Addrs(Span(start, n)) <= free
    ensures HeapInv(free - Addrs(Span(start, n)), Mapped(mapping, start, Top(stack, n)), Mapped(owned, start, Top(stack, n)),
                    stack[..|stack| - n], frames)
  {
    assert Peek(0);
    var fs, rest := Top(stack, n), stack[..|stack| - n];
    var free', mapping', owned' := free - Addrs(Span(start, n)), Mapped(mapping, start, fs), Mapped(owned, start, fs);
    TopIsLoose(stack, n);
    FreeIsUnmapped(free, mapping, start, n);
    forall p | p in mapping'
      ensures p !in free' && p % PAGE_SIZE == 0
    {
      var i := MappedCases(mapping, start, fs, p);
      if i < n {
        PageInSpan(start, n, i);
        SpanParts(start, n, i);
      }
    }
    forall p | p in owned'
      ensures OwnedOk(free', mapping', owned', rest, frames, p)
    {
      var i := MappedCases(owned, start, fs, p);
      if i < n {
        SpanParts(start, n, i);
        MappedAt(mapping, start, fs, i);
        assert fs[i] in fs;
      } else {
        assert OwnedOk(free, mapping, owned, stack, frames, p);
        MappedElsewhere(mapping, start, fs, p);
      }
    }
    forall p, q | p in owned' && q in owned' && owned'[p].frame == owned'[q].frame
      ensures p == q
    {
      var i := MappedCases(owned, start, fs, p);
      var j := MappedCases(owned, start, fs, q);
      if i < n {
        assert fs[i] in fs;
      } else {
        assert OwnedOk(free, mapping, owned, stack, frames, p);
      }
      if j < n {
        assert fs[j] in fs;
      } else {
        assert OwnedOk(free, mapping, owned, stack, frames, q);
      }
    }
  }

  /** The frames behind `n` owned pages. */
  function Behind(owned: map<int, Mapping>, start: int, n: nat): seq<Frame>
    requires forall i: nat :: i < n ==> Page(start, i) in owned
  {
    seq(n, i requires 0 <= i < n => owned[Page(start, i)].frame)
  }

  lemma BehindIsLoose(free: iset<int>, mapping: map<int, Mapping>, owned: map<int, Mapping>, stack: seq<Frame>, frames: set<Frame>, start: int, n: nat)
    requires HeapInv(free, mapping, owned, stack, frames)
    requires forall i: nat :: i < n ==> Page(start, i) in owned
    ensures var got := Behind(owned, start, n);
            && Distinct(got)
            && (forall f :: f in got ==> f in frames && f !in stack)
            && (forall i: nat :: i < n ==> Page(start, i) in mapping && mapping[Page(start, i)].frame == got[i])
  {
    assert Peek(0);
    var got := Behind(owned, start, n);
    forall i: nat | i < n
      ensures Page(start, i) in mapping && mapping[Page(start, i)].frame == got[i] && got[i] in frames && got[i] !in stack
    {
      assert OwnedOk(free, mapping, owned, stack, frames, Page(start, i));
    }
    forall i, j | 0 <= i < j < |got|
      ensures got[i] != got[j]
    {
      assert Page(start, i) != Page(start, j);
    }
  }

  /** None of the addresses of `n` owned pages is free. */
  lemma OwnedNotFree(free: iset<int>, mapping: map<int, Mapping>, owned: map<int, Mapping>, stack: seq<Frame>, frames: set<Frame>, start: int, n: nat)
    requires HeapInv(free, mapping, owned, stack, frames)
    requires forall i: nat :: i < n ==> Page(start, i) in owned
    ensures Addrs(Span(start, n)) !! free
  {
    assert Peek(0);
    forall a | a in Addrs(Span(start, n))
      ensures a !in free
    {
      var i := (a - start) / PAGE_SIZE;
      assert OwnedOk(free, mapping, owned, stack, frames, Page(start, i));
      assert a in Addrs(Span(Page(start, i), 1));
    }
  }

  lemma ShrinkKeeps(free: iset<int>, mapping: map<int, Mapping>, owned: map<int, Mapping>, stack: seq<Frame>, frames: set<Frame>, start: int, n: nat)
    requires HeapInv(free, mapping, owned, stack, frames)
    requires start % PAGE_SIZE == 0
    requires forall i: nat :: i < n ==> Page(start, i) in owned
    ensures HeapInv(free + Addrs(Span(start, n)), Unmapped(mapping, start, n), Unmapped(owned, start, n),
                    stack + Behind(owned, start, n), frames)
  {
    assert Peek(0);
    var free', mapping', owned' := free + Addrs(Span(start, n)), Unmapped(mapping, start, n), Unmapped(owned, start, n);
    var got := Behind(owned, start, n);
    forall p | p in mapping'
      ensures p !in free' && p % PAGE_SIZE == 0
    {
      UnmappedIs(mapping, start, n, p);
      OtherPage(start, n, p);
      assert p in Addrs(Span(p, 1));
    }
    forall p | p in owned'
      ensures p in owned && owned'[p] == owned[p] && OwnedOk(free', mapping', owned', stack + got, frames, p)
    {
      UnmappedIs(owned, start, n, p);
      UnmappedIs(mapping, start, n, p);
      assert OwnedOk(free, mapping, owned, stack, frames, p);
      OtherPage(start, n, p);
      forall i | 0 <= i < n
        ensures got[i] != owned[p].frame
      {
        assert IsPage(start, n, Page(start, i));
      }
    }
  }

  /** A page that is not of the span shares no address with it. */
  lemma OtherPage(start: int, n: nat, p: int)
    requires start % PAGE_SIZE == 0 && p % PAGE_SIZE == 0 && !IsPage(start, n, p)
    ensures Addrs(Span(p, 1)) !! Addrs(Span(start, n))
  {
    forall a | a in Addrs(Span(p, 1))
      ensures a !in Addrs(Span(start, n))
    {
      if Has(Span(start, n), a) {
        var i: nat := (a - start) / PAGE_SIZE;
        assert p == Page(start, i) by {
          assert (a - start) / PAGE_SIZE == (p - start) / PAGE_SIZE;
        }
        assert IsPage(start, n, p);
      }
    }
  }

  /** Taking frames and giving the same ones back leaves the invariant as it was. */
  lemma SameFramesKeep(free: iset<int>, mapping: map<int, Mapping>, owned: map<int, Mapping>, stack: seq<Frame>, stack': seq<Frame>, frames: set<Frame>)
    requires HeapInv(free, mapping, owned, stack, frames) && Elems(stack) == Elems(stack')
    ensures HeapInv(free, mapping, owned, stack', frames)
  {
    assert Peek(0);
    forall p | p in owned
      ensures OwnedOk(free, mapping, owned, stack', frames, p)
    {
      assert OwnedOk(free, mapping, owned, stack, frames, p);
      assert owned[p].frame in stack' <==> owned[p].frame in Elems(stack');
      assert owned[p].frame in stack <==> owned[p].frame in Elems(stack);
    }
  }

  /** Page `p`, not mapped before, is mapped writeable to a frame that was free and no longer is. */
  ghost predicate NewPage(m: map<int, Mapping>, m': map<int, Mapping>, p: int, stack: seq<Frame>, stack': seq<Frame>) {
    p !in m && p in m' && m'[p].writeable && m'[p].frame in stack && m'[p].frame !in stack'
  }

  /** So is every page of the bytes from `start` on, each to a frame of its own, and no other
      mapping differs. */
  ghost predicate NewlyBacked(m: map<int, Mapping>, m': map<int, Mapping>, start: int, bytes: nat, stack: seq<Frame>, stack': seq<Frame>) {
    forall k: nat {:trigger Look(k)} :: Look(k) ==> Backed(m, m', start, bytes, stack, stack')
  }

  ghost predicate Backed(m: map<int, Mapping>, m': map<int, Mapping>, start: int, bytes: nat, stack: seq<Frame>, stack': seq<Frame>) {
    && (forall p :: start <= p < start + bytes && p % PAGE_SIZE == 0 ==> NewPage(m, m', p, stack, stack'))
    && (forall p, q :: start <= p < q < start + bytes && p in m' && q in m' ==> m'[p].frame != m'[q].frame)
    && (forall p :: !(start <= p < start + bytes && p % PAGE_SIZE == 0) ==> (p in m' <==> p in m) && (p in m ==> m'[p] == m[p]))
  }

  lemma PageOf(start: int, n: nat, p: int)
    requires start % PAGE_SIZE == 0
    ensures IsPage(start, n, p) <==> start <= p < start + n * PAGE_SIZE && p % PAGE_SIZE == 0
  {
    if start <= p < start + n * PAGE_SIZE && p % PAGE_SIZE == 0 {
      var i: nat := (p - start) / PAGE_SIZE;
      assert i < n && p == Page(start, i);
    }
  }

  lemma BackedByTop(m: map<int, Mapping>, start: int, n: nat, stack: seq<Frame>)
    requires start % PAGE_SIZE == 0 && Distinct(stack) && n <= |stack| && forall i: nat :: i < n ==> Page(start, i) !in m
    requires forall p :: p in m ==> p % PAGE_SIZE == 0
    ensures NewlyBacked(m, Mapped(m, start, Top(stack, n)), start, n * PAGE_SIZE, stack, stack[..|stack| - n])
  {
    var fs := Top(stack, n);
    var m' := Mapped(m, start, fs);
    TopIsLoose(stack, n);
    forall p
      ensures IsPage(start, n, p) ==> NewPage(m, m', p, stack, stack[..|stack| - n])
      ensures !IsPage(start, n, p) ==> (p in m' <==> p in m) && (p in m ==> m'[p] == m[p])
      ensures IsPage(start, n, p) <==> start <= p < start + n * PAGE_SIZE && p % PAGE_SIZE == 0
    {
      PageOf(start, n, p);
      if IsPage(start, n, p) {
        var i: nat :| i < n && p == Page(start, i);
        MappedAt(m, start, fs, i);
        assert fs[i] in fs;
      } else {
        MappedElsewhere(m, start, fs, p);
      }
    }
    FramesApart(m, start, fs);
  }

  /** Pages that are mapped to distinct frames have frames of their own. */
  lemma FramesApart(m: map<int, Mapping>, start: int, fs: seq<Frame>)
    requires Distinct(fs) && start % PAGE_SIZE == 0 && (forall i: nat :: i < |fs| ==> Page(start, i) !in m)
    requires forall p :: p in m ==> p % PAGE_SIZE == 0
    ensures var m' := Mapped(m, start, fs);
            forall p, q :: start <= p < q < start + |fs| * PAGE_SIZE && p in m' && q in m' ==> m'[p].frame != m'[q].frame
  {
    var m' := Mapped(m, start, fs);
    forall p, q | start <= p < q < start + |fs| * PAGE_SIZE && p in m' && q in m'
      ensures m'[p].frame != m'[q].frame
    {
      var i := MappedCases(m, start, fs, p);
      var j := MappedCases(m, start, fs, q);
      PageOf(start, |fs|, p);
      PageOf(start, |fs|, q);
    }
  }

  lemma GrowDone(free: iset<int>, mapping: map<int, Mapping>, owned: map<int, Mapping>, stack: seq<Frame>, frames: set<Frame>, start: int, n: nat)
    requires HeapInv(free, mapping, owned, stack, frames)
    requires Distinct(stack) && (forall f :: f in stack ==> f in frames) && n <= |stack|
    requires start % PAGE_SIZE == 0 && Addrs(Span(start, n)) <= free
    ensures HeapInv(free - Addrs(Span(start, n)), Mapped(mapping, start, Top(stack, n)), Mapped(owned, start, Top(stack, n)),
                    stack[..|stack| - n], frames)
    ensures NewlyBacked(mapping, Mapped(mapping, start, Top(stack, n)), start, n * PAGE_SIZE, stack, stack[..|stack| - n])
  {
    assert Peek(0);
    GrowKeeps(free, mapping, owned, stack, frames, start, n);
    FreeIsUnmapped(free, mapping, start, n);
    BackedByTop(mapping, start, n, stack);
  }

  lemma PageCountFits(size: nat)
    ensures size <= PageCount(size) * PAGE_SIZE < size + PAGE_SIZE
  {
  }

  class PagedHeap {
    const virt: VirtualAllocator
    const back: Backing

    /** The pages of the blocks that are in use. */
    ghost var owned: map<int, Mapping>

    ghost predicate Valid()
      reads this, virt, back, back.frames
    {
      && virt.Valid() && back.frames.Valid()
      && HeapInv(virt.Free(), back.mapping, owned, back.frames.stack, back.frames.mem.Keys)
    }

    /** The pages that are mapped already, such as those of the kernel itself, are none of the free
        addresses. */
    constructor (v: VirtualAllocator, fs: F.FrameAllocator, m: map<int, Mapping>)
      requires v.Valid() && fs.Valid() && (forall p :: p in m ==> p !in v.Free() && p % PAGE_SIZE == 0)
      ensures virt == v && back.frames == fs && fresh(back) && back.mapping == m && owned == map[]
      ensures Valid()
    {
      virt := v;
      back := new Backing(fs, m);
      owned := map[];
    }

    /** Either maps every page of a fresh region to a frame of its own that was free, or changes
        neither the free addresses nor the mappings nor the set of free frames. It fails exactly
        when the alignment is too large, no run of free addresses is long enough, or there are
        too few frames. */
    method Allocate(size: nat, align: nat) returns (r: Outcome)
      requires Valid()
      modifies this, virt, back, back.frames
      ensures Valid()
      ensures r.Dangling? <==> size == 0
      ensures r.Failed? <==> size > 0 && (align > PAGE_SIZE || PageCount(size) > |old(back.frames.stack)|
                                          || forall a :: !FreeRun(old(virt.Free()), a, PageCount(size) * PAGE_SIZE))
      ensures r.Block? ==>
                var n, s := PageCount(size), old(back.frames.stack);
                && r.bytes == n * PAGE_SIZE && n <= |s|
                && Addrs(Span(r.start, n)) <= old(virt.Free()) && virt.Free() == old(virt.Free()) - Addrs(Span(r.start, n))
                && back.frames.stack == s[..|s| - n]
                && back.mapping == Mapped(old(back.mapping), r.start, Top(s, n))
                && owned == Mapped(old(owned), r.start, Top(s, n))
      ensures r.Block? ==> r.start % PAGE_SIZE == 0 && size <= r.bytes < size + PAGE_SIZE
      ensures r.Block? ==> NewlyBacked(old(back.mapping), back.mapping, r.start, r.bytes, old(back.frames.stack), back.frames.stack)
      ensures !r.Block? ==> virt.Free() == old(virt.Free()) && back.mapping == old(back.mapping) && owned == old(owned)
      ensures !r.Block? ==> Elems(back.frames.stack) == Elems(old(back.frames.stack))
    {
      if size == 0 {
        return Dangling;
      }
      if align > PAGE_SIZE {
        return Failed;
      }
      var n := PageCount(size);
      PageCountFits(size);
      ghost var free, mapping, stack := virt.Free(), back.mapping, back.frames.stack;
      FramesKnown(back.frames);
      var region := virt.Alloc(n * PAGE_SIZE);
      if !region.Allocated? {
        return Failed;
      }
      var start := region.region.start;
      assert region.region == Span(start, n);
      SpanIsUnmapped(free, mapping, owned, stack, back.frames.mem.Keys, start, n);
      var ok := back.Back(start, n);
      if ok {
        GrowDone(free, mapping, owned, stack, back.frames.mem.Keys, start, n);
        owned := Mapped(owned, start, Top(stack, n));
        return Block(start, n * PAGE_SIZE);
      }
      var freed := virt.FreeRegion(region.region);
      assert virt.Free() == free;
      SameFramesKeep(free, mapping, owned, stack, back.frames.stack, back.frames.mem.Keys);
      r := Failed;
    }

    /** Gives back a block. A zero-sized block is said to be at address 1, and giving it back
        panics because that is not page-aligned; every other block passes. */
    method Deallocate(start: int, size: nat) returns (ok: bool)
      requires Valid() && forall i: nat :: i < PageCount(size) ==> Page(start, i) in owned
      modifies this, virt, back, back.frames
      ensures Valid()
      ensures ok <==> start % PAGE_SIZE == 0
      ensures size > 0 ==> ok
      ensures var n := PageCount(size);
              if ok then
                && virt.Free() == old(virt.Free()) + Addrs(Span(start, n))
                && back.mapping == Unmapped(old(back.mapping), start, n)
                && owned == Unmapped(old(owned), start, n)
                && back.frames.stack == old(back.frames.stack) + Behind(old(owned), start, n)
              else
                virt.Free() == old(virt.Free()) && back.mapping == old(back.mapping) && owned == old(owned) && back.frames.stack == old(back.frames.stack)
    {
      var n := PageCount(size);
      ghost var free, mapping, stack, frames := virt.Free(), back.mapping, back.frames.stack, back.frames.mem.Keys;
      ghost var got := Behind(owned, start, n);
      BehindIsLoose(free, mapping, owned, stack, frames, start, n);
      OwnedNotFree(free, mapping, owned, stack, frames, start, n);
      AlignedIfAny(free, mapping, owned, stack, frames, start, size);
      back.Release(start, n, got);
      ok := virt.FreeRegion(Span(start, n));
      if ok {
        ShrinkKeeps(free, mapping, owned, stack, frames, start, n);
        owned := Unmapped(owned, start, n);
      }
    }
  }

  lemma AlignedIfAny(free: iset<int>, mapping: map<int, Mapping>, owned: map<int, Mapping>, stack: seq<Frame>, frames: set<Frame>, start: int, size: nat)
    requires HeapInv(free, mapping, owned, stack, frames)
    requires forall i: nat :: i < PageCount(size) ==> Page(start, i) in owned
    ensures size > 0 ==> start % PAGE_SIZE == 0
    ensures size == 0 ==> PageCount(size) == 0
    ensures PageAligned(Span(start, PageCount(size))) <==> start % PAGE_SIZE == 0
  {
    assert Peek(0);
    if size > 0 {
      assert PageCount(size) > 0;
      assert OwnedOk(free, mapping, owned, stack, frames, Page(start, 0));
    }
  }

  /** The address that stands for every zero-sized block. */
  const DANGLING: int := 1

  /** A block that was allocated can be given back, which undoes the allocation. A zero-sized block
      cannot: giving it back panics. */
  method AllocateThenFree(heap: PagedHeap, size: nat, align: nat) returns (r: Outcome, ok: bool)
    requires heap.Valid()
    modifies heap, heap.virt, heap.back, heap.back.frames
    ensures heap.Valid() && heap.virt.Free() == old(heap.virt.Free()) && heap.back.mapping == old(heap.back.mapping)
    ensures Elems(heap.back.frames.stack) == Elems(old(heap.back.frames.stack))
    ensures (size == 0 ==> r.Dangling?) && (ok <==> r.Block?)
  {
    ghost var mapping, s, owned, free, frames := heap.back.mapping, heap.back.frames.stack, heap.owned, heap.virt.Free(), heap.back.frames.mem.Keys;
    r := heap.Allocate(size, align);
    if r.Block? {
      ghost var n := PageCount(size);
      SpanIsUnmapped(free, mapping, owned, s, frames, r.start, n);
      OwnsBlock(owned, r.start, Top(s, n));
      ok := heap.Deallocate(r.start, size);
      UnmapUndoesMap(mapping, r.start, Top(s, n));
      GiveBack(s, n);
      assert heap.virt.Free() == free;
    } else if r.Dangling? {
      ok := heap.Deallocate(DANGLING, size);
    } else {
      ok := false;
    }
  }

  lemma OwnsBlock(owned: map<int, Mapping>, start: int, fs: seq<Frame>)
    ensures forall i: nat :: i < |fs| ==> Page(start, i) in Mapped(owned, start, fs)
    ensures Behind(Mapped(owned, start, fs), start, |fs|) == fs
  {
    forall i: nat | i < |fs|
      ensures Page(start, i) in Mapped(owned, start, fs) && Mapped(owned, start, fs)[Page(start, i)].frame == fs[i]
    {
      MappedAt(owned, start, fs, i);
    }
  }
}
