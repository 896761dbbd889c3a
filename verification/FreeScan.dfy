/** The recursive scan of the kernel page tables that finds the free regions of the upper half
    and hands them to the virtual allocator.
 */
module FreeScan {
  import opened Basics
  import opened Regions
  import opened PageTables
  import VA = VirtualAlloc
  import W = VirtualAsWritten
  import VC = VirtualCoded

  /** Whether the address at offset `off` of a table at `level` lies under an unused entry. */
  predicate Unused(m: Memory, t: Addr, level: nat, off: int)
    decreases level
  {
    && t in m && level >= 1 && 0 <= off < ENTRIES * Size(level)
    && var e := m[t][off / Size(level)];
       if e == UNUSED then true
       else level > 1 && !e.huge && Unused(m, e.addr, level - 1, off % Size(level))
  }

  /** An address under an unused entry does not translate. */
  lemma {:induction false} UnusedIsUnmapped(m: Memory, t: Addr, level: nat, va: nat)
    requires 1 <= level <= 4
    ensures Unused(m, t, level, va % (ENTRIES * Size(level))) ==> Walk(m, t, level, va) == None
    decreases level
  {
    var off := va % (ENTRIES * Size(level));
    OffsetInTable(level, va);
    if Unused(m, t, level, off) && m[t][Index(level, va)] != UNUSED {
      UnusedIsUnmapped(m, m[t][Index(level, va)].addr, level - 1, va);
    }
  }

  lemma OffsetInTable(level: nat, va: nat)
    requires 1 <= level <= 4
    ensures var off := va % (ENTRIES * Size(level));
            && off / Size(level) == Index(level, va) && off % Size(level) == va % Size(level)
            && (level > 1 ==> Size(level) == ENTRIES * Size(level - 1))
  {
    match level {
      case 1 => OffsetBy(va, 0x1000, 0x20_0000);
      case 2 => OffsetBy(va, 0x20_0000, 0x4000_0000);
      case 3 => OffsetBy(va, 0x4000_0000, 0x80_0000_0000);
      case 4 => OffsetBy(va, 0x80_0000_0000, 0x1_0000_0000_0000);
    }
  }

  /** The remainder by a whole table, counted in entries of `size` bytes. */
  lemma OffsetBy(va: nat, size: nat, whole: nat)
    requires size > 0 && whole == 512 * size
    ensures (va % whole) / size == (va / size) % 512 && (va % whole) % size == va % size
  {
    var q, r := va / size, va % size;
    var k, d := q / 512, q % 512;
    Division(va, size);
    Regroup(q, k, d, size, r);
    Remainder(va, whole, k, d * size + r);
    Remainder(d * size + r, size, d, r);
  }

  lemma Regroup(q: nat, k: nat, d: nat, size: nat, r: nat)
    requires q == k * 512 + d && d < 512 && r < size
    ensures q * size + r == k * (512 * size) + (d * size + r) && d * size + r < 512 * size
  {
    NextMultiple(d, 512, size);
  }

  lemma Remainder(a: nat, b: nat, k: nat, r: nat)
    requires r < b && a == k * b + r
    ensures a % b == r && a / b == k
  {
    var q := a / b;
    Division(a, b);
    if q < k {
      NextMultiple(q, k, b);
    } else if k < q {
      NextMultiple(k, q, b);
    }
  }

  lemma Division(a: nat, b: nat)
    requires b > 0
    ensures a == (a / b) * b + a % b
  {
  }

  lemma NextMultiple(i: nat, j: nat, b: nat)
    requires i < j
    ensures i * b + b <= j * b
  {
    assert (i + 1) * b <= j * b;
  }

  /** The scan comes through: every used entry above level 1 is huge, or it is present and leads to
      a table of which the same holds. The code panics at an entry that is neither. */
  ghost predicate Scannable(m: Memory, t: Addr, level: nat, lo: nat, hi: nat)
    requires hi <= ENTRIES
    decreases level
  {
    forall n: nat {:trigger Look(n)} :: Look(n) ==>
      t in m && forall i :: lo <= i < hi ==> ScannableEntry(m, m[t][i], level)
  }

  ghost predicate ScannableEntry(m: Memory, e: Entry, level: nat)
    decreases level, 0
  {
    e != UNUSED && level > 1 && !e.huge ==> e.present && Scannable(m, e.addr, level - 1, 0, ENTRIES)
  }

  /** The first address mapped by entry `j` of a table that maps addresses from `base` on. */
  function EntryAt(level: nat, base: int, j: nat): int {
    if j == 0 then base else EntryAt(level, base, j - 1) + Size(level)
  }

  lemma {:induction false} EntryAtIs(level: nat, base: int, j: nat)
    requires base % PAGE_SIZE == 0
    ensures EntryAt(level, base, j) == base + j * Size(level) && EntryAt(level, base, j) % PAGE_SIZE == 0
  {
    if j > 0 {
      EntryAtIs(level, base, j - 1);
      assert j * Size(level) == (j - 1) * Size(level) + Size(level);
    }
  }

  /** Address `a` lies under an unused entry from `lo` on and before `hi` of the table that maps
      addresses from `base` on. */
  predicate UnderUnused(m: Memory, t: Addr, level: nat, base: int, lo: nat, hi: nat, a: int) {
    EntryAt(level, base, lo) <= a < EntryAt(level, base, hi) && Unused(m, t, level, a - base)
  }

  ghost function UnusedIn(m: Memory, t: Addr, level: nat, base: int, lo: nat, hi: nat): iset<int> {
    iset a: int | UnderUnused(m, t, level, base, lo, hi, a)
  }

  /** The regions already handed out, and the one still growing. */
  function AllOf(out: seq<Region>, pending: Option<Region>): seq<Region> {
    match pending
    case None => out
    case Some(r) => out + [r]
  }

  /** The regions seen so far, `at` being how far the scan has come. */
  ghost predicate Seen(out: seq<Region>, pending: Option<Region>, at: int) {
    forall n: nat {:trigger Look(n)} :: Look(n) ==>
      && Coalesced(AllOf(out, pending))
      && (forall i :: 0 <= i < |AllOf(out, pending)| ==> AllOf(out, pending)[i].end <= at)
      && (pending.None? ==> out == [])
  }

  lemma GrowPending(out: seq<Region>, r: Region, at: int, size: nat)
    requires Seen(out, Some(r), at) && r.end == at && size % PAGE_SIZE == 0 && size > 0
    ensures var r' := Region(r.start, at + size);
            && Seen(out, Some(r'), at + size)
            && FreeAddrs(out + [r']) == FreeAddrs(out + [r]) + Addrs(Region(at, at + size))
  {
    assert Look(0);
    var rs := out + [r];
    var r' := Region(r.start, at + size);
    assert Proper(rs[|out|]);
    assert rs[|out|..|rs|] == [r];
    FreeAddrsOne(r);
    Absorb(rs, |out|, |rs|, r', Region(at, at + size));
    assert Splice(rs, |out|, |rs|, [r']) == out + [r'];
  }

  lemma StartPending(rs: seq<Region>, at: int, size: nat)
    requires Coalesced(rs) && at % PAGE_SIZE == 0 && size % PAGE_SIZE == 0 && size > 0
    requires forall i :: 0 <= i < |rs| ==> rs[i].end < at
    ensures var r := Region(at, at + size);
            && Seen(rs, Some(r), at + size)
            && FreeAddrs(rs + [r]) == FreeAddrs(rs) + Addrs(r)
  {
    var r := Region(at, at + size);
    CoalescedConcat(rs, [r]);
    FreeAddrsConcat(rs, [r]);
    FreeAddrsOne(r);
  }

  /** One unused entry: the pending region grows over it, or is handed out and replaced. */
  method AddEntry(out: seq<Region>, pending: Option<Region>, at: int, size: nat)
    returns (out': seq<Region>, pending': Option<Region>)
    requires Seen(out, pending, at) && at % PAGE_SIZE == 0 && size % PAGE_SIZE == 0 && size > 0
    ensures Seen(out', pending', at + size)
    ensures FreeAddrs(AllOf(out', pending')) == FreeAddrs(AllOf(out, pending)) + Addrs(Region(at, at + size))
  {
    assert Look(0);
    match pending {
      case Some(r) =>
        assert AllOf(out, pending)[|out|] == r;
        if r.end == at {
          GrowPending(out, r, at, size);
          out', pending' := out, Some(Region(r.start, at + size));
        } else {
          PendingIsLast(out, r, at);
          StartPending(out + [r], at, size);
          out', pending' := out + [r], Some(Region(at, at + size));
        }
      case None =>
        StartPending(out, at, size);
        out', pending' := out, Some(Region(at, at + size));
    }
  }

  lemma PendingIsLast(out: seq<Region>, r: Region, at: int)
    requires Seen(out, Some(r), at) && r.end != at
    ensures forall i :: 0 <= i < |out + [r]| ==> (out + [r])[i].end < at
  {
    assert Look(0);
    var rs := out + [r];
    assert rs[|out|] == r && Proper(r);
    forall i | 0 <= i < |out|
      ensures rs[i].end < at
    {
      assert rs[i].end < rs[|out|].start;
    }
  }

  lemma SeenLater(out: seq<Region>, pending: Option<Region>, at: int, at': int)
    requires Seen(out, pending, at) && at <= at'
    ensures Seen(out, pending, at')
  {
    assert Look(0);
  }

  /** The scan has come to `at`, and its regions have grown by the addresses in `x`. */
  ghost predicate Adds(out: seq<Region>, pending: Option<Region>, out': seq<Region>, pending': Option<Region>, at: int, x: iset<int>) {
    forall n: nat {:trigger Look(n)} :: Look(n) ==>
      Seen(out', pending', at) && FreeAddrs(AllOf(out', pending')) == FreeAddrs(AllOf(out, pending)) + x
  }

  lemma AddsSeen(out: seq<Region>, pending: Option<Region>, out': seq<Region>, pending': Option<Region>, at: int, x: iset<int>)
    requires Adds(out, pending, out', pending', at, x)
    ensures Seen(out', pending', at) && FreeAddrs(AllOf(out', pending')) == FreeAddrs(AllOf(out, pending)) + x
  {
    assert Look(0);
  }

  lemma AddsTwice(o: seq<Region>, p: Option<Region>, o1: seq<Region>, p1: Option<Region>, o2: seq<Region>, p2: Option<Region>,
                  at1: int, at2: int, x: iset<int>, y: iset<int>)
    requires Adds(o, p, o1, p1, at1, x) && Adds(o1, p1, o2, p2, at2, y)
    ensures Adds(o, p, o2, p2, at2, x + y)
  {
    AddsSeen(o, p, o1, p1, at1, x);
    AddsSeen(o1, p1, o2, p2, at2, y);
  }

  lemma NoneUnused(m: Memory, t: Addr, level: nat, base: int, lo: nat)
    ensures UnusedIn(m, t, level, base, lo, lo) == iset{}
  {
  }

  lemma ScannableStep(m: Memory, t: Addr, level: nat, lo: nat, j: nat, hi: nat)
    requires t in m && lo <= j < hi <= ENTRIES
    ensures Scannable(m, t, level, lo, j + 1) <==> Scannable(m, t, level, lo, j) && ScannableEntry(m, m[t][j], level)
    ensures Scannable(m, t, level, lo, hi) ==> ScannableEntry(m, m[t][j], level)
  {
    assert Look(0);
  }

  /** The scan of a table has come from entry `lo` to entry `j`, at address `at`. */
  ghost predicate ScannedTo(m: Memory, t: Addr, level: nat, base: int, lo: nat, j: nat, at: int,
                            out: seq<Region>, pending: Option<Region>, out': seq<Region>, pending': Option<Region>) {
    forall n: nat {:trigger Look(n)} :: Look(n) ==>
      && j <= ENTRIES && at == EntryAt(level, base, j) && Scannable(m, t, level, lo, j)
      && Adds(out, pending, out', pending', at, UnusedIn(m, t, level, base, lo, j))
  }

  lemma ScanStarts(m: Memory, t: Addr, level: nat, base: int, lo: nat, at: int, out: seq<Region>, pending: Option<Region>)
    requires t in m && lo <= ENTRIES && at == EntryAt(level, base, lo) && Seen(out, pending, at)
    ensures ScannedTo(m, t, level, base, lo, lo, at, out, pending, out, pending)
  {
    NoneUnused(m, t, level, base, lo);
  }

  lemma ScanAt(m: Memory, t: Addr, level: nat, base: int, lo: nat, j: nat, at: int,
               out: seq<Region>, pending: Option<Region>, out': seq<Region>, pending': Option<Region>)
    requires ScannedTo(m, t, level, base, lo, j, at, out, pending, out', pending') && base % PAGE_SIZE == 0
    ensures j <= ENTRIES && at == EntryAt(level, base, j) && at % PAGE_SIZE == 0 && Scannable(m, t, level, lo, j)
    ensures Seen(out', pending', at) && Adds(out, pending, out', pending', at, UnusedIn(m, t, level, base, lo, j))
  {
    assert Look(0);
    EntryAtIs(level, base, j);
    AddsSeen(out, pending, out', pending', at, UnusedIn(m, t, level, base, lo, j));
  }

  lemma ScanNextAt(m: Memory, t: Addr, level: nat, base: int, lo: nat, j: nat, at: int, out: seq<Region>, pending: Option<Region>,
                   o: seq<Region>, p: Option<Region>, out': seq<Region>, pending': Option<Region>)
    requires t in m && 1 <= level <= 4 && lo <= j < ENTRIES && base % PAGE_SIZE == 0
    requires ScannedTo(m, t, level, base, lo, j, at, out, pending, o, p)
    requires ScannableEntry(m, m[t][j], level) && Adds(o, p, out', pending', at + Size(level), EntryAdds(m, m[t][j], level, at))
    ensures ScannedTo(m, t, level, base, lo, j + 1, at + Size(level), out, pending, out', pending')
  {
    ScanAt(m, t, level, base, lo, j, at, out, pending, o, p);
    NextEntryUnused(m, t, level, base, lo, j);
    ScannableStep(m, t, level, lo, j, ENTRIES);
    AddsTwice(out, pending, o, p, out', pending', at, at + Size(level), UnusedIn(m, t, level, base, lo, j), EntryAdds(m, m[t][j], level, at));
  }

  /** Scans entries `lo` to `hi` of a table, the first of which maps `start`, and panics exactly at
      a used entry that is neither huge nor present. What was handed out together with the pending
      region grows by exactly the addresses under unused entries. */
  method Scan(m: Memory, t: Addr, lo: nat, hi: nat, start: int, level: nat, out: seq<Region>, pending: Option<Region>,
              ghost base: int, ghost ids: map<Addr, TableId>)
    returns (ok: bool, out': seq<Region>, pending': Option<Region>)
    requires 1 <= level <= 4 && lo <= hi <= ENTRIES && WellPlaced(m, ids) && t in m && AtLevel(ids[t], level)
    requires base % PAGE_SIZE == 0 && start == EntryAt(level, base, lo) && Seen(out, pending, start)
    ensures ok <==> Scannable(m, t, level, lo, hi)
    ensures ok ==> Adds(out, pending, out', pending', EntryAt(level, base, hi), UnusedIn(m, t, level, base, lo, hi))
    decreases level, 2
  {
    out', pending' := out, pending;
    var at := start;
    ScanStarts(m, t, level, base, lo, at, out, pending);
    for j := lo to hi
      invariant ScannedTo(m, t, level, base, lo, j, at, out, pending, out', pending')
    {
      ok, out', pending' := ScanNext(m, t, j, at, level, out', pending', base, ids, lo, hi, out, pending);
      if !ok {
        return;
      }
      at := at + Size(level);
    }
    ok := true;
    ScanAt(m, t, level, base, lo, hi, at, out, pending, out', pending');
  }

  /** The next entry of a table. */
  method ScanNext(m: Memory, t: Addr, j: nat, at: int, level: nat, o: seq<Region>, p: Option<Region>, ghost base: int,
                  ghost ids: map<Addr, TableId>, ghost lo: nat, ghost hi: nat, ghost out: seq<Region>, ghost pending: Option<Region>)
    returns (ok: bool, out': seq<Region>, pending': Option<Region>)
    requires 1 <= level <= 4 && lo <= j < hi <= ENTRIES && WellPlaced(m, ids) && t in m && AtLevel(ids[t], level)
    requires base % PAGE_SIZE == 0 && ScannedTo(m, t, level, base, lo, j, at, out, pending, o, p)
    ensures ok ==> ScannedTo(m, t, level, base, lo, j + 1, at + Size(level), out, pending, out', pending')
    ensures !ok ==> !Scannable(m, t, level, lo, hi)
    decreases level, 1
  {
    ScanAt(m, t, level, base, lo, j, at, out, pending, o, p);
    assert EntryPlaced(m, ids, t, j);
    ok, out', pending' := ScanEntry(m, m[t][j], at, level, o, p, ids);
    if ok {
      ScanNextAt(m, t, level, base, lo, j, at, out, pending, o, p, out', pending');
    } else {
      ScannableStep(m, t, level, lo, j, hi);
    }
  }

  /** One entry of the scan: an unused one is added, a table is scanned in turn. */
  method ScanEntry(m: Memory, entry: Entry, at: int, level: nat, out: seq<Region>, pending: Option<Region>, ghost ids: map<Addr, TableId>)
    returns (ok: bool, out': seq<Region>, pending': Option<Region>)
    requires 1 <= level <= 4 && WellPlaced(m, ids)
    requires entry.present && !IsLeaf(level, entry) ==> entry.addr in m && AtLevel(ids[entry.addr], level - 1)
    requires at % PAGE_SIZE == 0 && Seen(out, pending, at)
    ensures ok <==> ScannableEntry(m, entry, level)
    ensures ok ==> Adds(out, pending, out', pending', at + Size(level), EntryAdds(m, entry, level, at))
    decreases level, 0
  {
    ok := true;
    if entry == UNUSED {
      out', pending' := AddEntry(out, pending, at, Size(level));
    } else if level > 1 && !entry.huge {
      if !entry.present {
        return false, out, pending;
      }
      WholeTable(level, at);
      ok, out', pending' := Scan(m, entry.addr, 0, ENTRIES, at, level - 1, out, pending, at, ids);
    } else {
      SeenLater(out, pending, at, at + Size(level));
      out', pending' := out, pending;
    }
  }

  /** Addresses of the upper half that the kernel allocator may use: those under unused entries,
      except for the last top-level entry. */
  ghost function KernelFree(m: Memory, root: Addr): iset<int> {
    UnusedIn(m, root, 4, UPPER_HALF - 256 * Size(4), 256, 511)
  }

  // ---- which addresses these are, by their walks ----

  /** Below entries that a scan gets through, an address is under an unused entry exactly when its
      walk ends at one. */
  lemma {:induction false} UnusedIsStop(m: Memory, t: Addr, level: nat, lo: nat, hi: nat, va: nat)
    requires 1 <= level <= 4 && hi <= ENTRIES && Scannable(m, t, level, lo, hi) && lo <= Index(level, va) < hi
    requires t in m && (level == 4 ==> !m[t][Index(level, va)].huge)
    ensures var s := StopOf(m, t, level, va);
            s.Some? && !HalfMadeStop(s.value)
            && (Unused(m, t, level, va % (ENTRIES * Size(level))) <==> s.value.entry == UNUSED)
    decreases level
  {
    assert Look(0);
    var e := m[t][Index(level, va)];
    assert ScannableEntry(m, e, level);
    OffsetInTable(level, va);
    if e != UNUSED && level > 1 && !e.huge {
      UnusedIsStop(m, e.addr, level - 1, 0, ENTRIES, va);
    }
  }

  /** A walk that ends above the last tables at a used entry that is neither huge nor present. */
  predicate HalfMadeStop(s: Stop) {
    s.level > 1 && s.entry != UNUSED && !s.entry.huge && !s.entry.present
  }

  lemma UpperOffset(va: int)
    requires UPPER_HALF <= va < 0x1_0000_0000_0000_0000
    ensures va % (ENTRIES * Size(4)) == va - (UPPER_HALF - 256 * Size(4))
    ensures 256 <= Index(4, va) < ENTRIES && (va < 0xffff_ff80_0000_0000 <==> Index(4, va) < 511)
  {
    var off: nat := va - 0xffff_0000_0000_0000;
    var i, r := off / 0x80_0000_0000, off % 0x80_0000_0000;
    Division(off, 0x80_0000_0000);
    Remainder(va, 0x1_0000_0000_0000, 0xffff, off);
    Remainder(va, 0x80_0000_0000, 0xffff * 512 + i, r);
    Remainder(0xffff * 512 + i, 512, 0xffff, i);
  }

  /** The addresses found are those of the upper half, but for what its last entry maps, whose walk
      ends at an unused entry. The scan, unlike the walk, heeds the huge bit at the top. */
  lemma KernelFreeIs(m: Memory, root: Addr, va: int)
    requires Scannable(m, root, 4, 256, 511) && root in m
    ensures va in KernelFree(m, root) <==>
              UPPER_HALF <= va < 0xffff_ff80_0000_0000 && !m[root][Index(4, va)].huge && StopsAt(m, root, va, UNUSED)
  {
    var base := UPPER_HALF - 256 * Size(4);
    EntryAtIs(4, base, 256);
    EntryAtIs(4, base, 511);
    if UPPER_HALF <= va < 0xffff_ff80_0000_0000 {
      UpperOffset(va);
      OffsetInTable(4, va);
      if !m[root][Index(4, va)].huge {
        UnusedIsStop(m, root, 4, 256, 511, va);
      }
    }
  }

  /** Every absent entry is unused, and no top-level entry is huge. */
  ghost predicate NothingHalfMade(m: Memory, root: Addr) {
    && (forall t, i :: t in m && 0 <= i < ENTRIES && !m[t][i].present ==> m[t][i] == UNUSED)
    && root in m && (forall i :: 256 <= i < 511 ==> !m[root][i].huge)
  }

  /** Then the scan comes through ... */
  lemma {:induction false} CompleteIsScannable(m: Memory, ids: map<Addr, TableId>, t: Addr, level: nat, lo: nat, hi: nat)
    requires WellPlaced(m, ids) && t in m && 1 <= level <= 4 && AtLevel(ids[t], level) && hi <= ENTRIES
    requires forall u, i :: u in m && 0 <= i < ENTRIES && !m[u][i].present ==> m[u][i] == UNUSED
    ensures Scannable(m, t, level, lo, hi)
    decreases level
  {
    forall i | lo <= i < hi
      ensures ScannableEntry(m, m[t][i], level)
    {
      var e := m[t][i];
      assert EntryPlaced(m, ids, t, i);
      if e != UNUSED && level > 1 && !e.huge {
        CompleteIsScannable(m, ids, e.addr, level - 1, 0, ENTRIES);
      }
    }
  }

  /** ... and every address of that range that does not translate is free. */
  lemma UnmappedIsFree(m: Memory, ids: map<Addr, TableId>, root: Addr, va: int)
    requires WellPlaced(m, ids) && root in m && ids[root] == RootId(root) && NothingHalfMade(m, root)
    ensures Scannable(m, root, 4, 256, 511)
    ensures va in KernelFree(m, root) <==> UPPER_HALF <= va < 0xffff_ff80_0000_0000 && GetPage(m, root, va) == None
  {
    CompleteIsScannable(m, ids, root, 4, 256, 511);
    KernelFreeIs(m, root, va);
    if UPPER_HALF <= va < 0xffff_ff80_0000_0000 {
      UpperOffset(va);
      UnusedIsStop(m, root, 4, 256, 511, va);
      StopsInTables(m, root, 4, va);
      WalkReads(m, root, 4, va);
    }
  }

  /** The entry where a walk ends is one of some table. */
  lemma {:induction false} StopsInTables(m: Memory, t: Addr, level: nat, va: nat)
    ensures var s := StopOf(m, t, level, va);
            s.Some? ==> exists u, i :: u in m && 0 <= i < ENTRIES && m[u][i] == s.value.entry
    decreases level
  {
    if t in m {
      var e := m[t][Index(level, va)];
      if e.present && !IsLeaf(level, e) {
        StopsInTables(m, e.addr, level - 1, va);
      }
    }
  }

  lemma IndexIn(level: nat, base: int, i: nat, va: int)
    requires 1 <= level <= 4 && i < ENTRIES && 0 <= base && base % (ENTRIES * Size(level)) == 0
    requires i * Size(level) <= va - base < (i + 1) * Size(level)
    ensures va >= 0 && Index(level, va) == i
  {
    match level {
      case 1 => IndexBy(base, 0x1000, 0x20_0000, i, va);
      case 2 => IndexBy(base, 0x20_0000, 0x4000_0000, i, va);
      case 3 => IndexBy(base, 0x4000_0000, 0x80_0000_0000, i, va);
      case 4 => IndexBy(base, 0x80_0000_0000, 0x1_0000_0000_0000, i, va);
    }
  }

  lemma IndexBy(base: nat, size: nat, whole: nat, i: nat, va: int)
    requires size > 0 && whole == 512 * size && base % whole == 0 && i < 512 && i * size <= va - base < (i + 1) * size
    ensures va >= 0 && (va / size) % 512 == i
  {
    var q := base / whole;
    Division(base, whole);
    EntryStart(q, size, i);
    Remainder(va, size, q * 512 + i, va - base - i * size);
  }

  lemma EntryStart(q: nat, size: nat, i: nat)
    ensures q * (512 * size) + i * size == (q * 512 + i) * size && (i + 1) * size == i * size + size && i * size >= 0
  {
    assert q * (512 * size) == (q * 512) * size;
  }

  /** Entries `lo` to `hi` of a table that maps addresses from `base` on map `va`. */
  predicate MappedBy(level: nat, base: int, lo: nat, hi: nat, va: int) {
    lo * Size(level) <= va - base < hi * Size(level)
  }

  /** The scan of a table comes through exactly when no walk through the table ends like that. */
  lemma {:induction false} WalksMakeScannable(m: Memory, t: Addr, level: nat, base: int, lo: nat, hi: nat)
    requires 1 <= level <= 4 && t in m && hi <= ENTRIES && 0 <= base && base % (ENTRIES * Size(level)) == 0
    requires forall va: nat :: MappedBy(level, base, lo, hi, va) && (level == 4 ==> !m[t][Index(4, va)].huge)
                               ==> Sound(StopOf(m, t, level, va))
    ensures Scannable(m, t, level, lo, hi)
    decreases level
  {
    forall i | lo <= i < hi
      ensures ScannableEntry(m, m[t][i], level)
    {
      var e, at := m[t][i], base + i * Size(level);
      NextMultiple(i, hi, Size(level));
      if lo < i {
        NextMultiple(lo, i, Size(level));
      }
      assert (i + 1) * Size(level) == i * Size(level) + Size(level);
      if e != UNUSED && level > 1 && !e.huge {
        IndexIn(level, base, i, at);
        assert MappedBy(level, base, lo, hi, at) && Sound(StopOf(m, t, level, at));
        EntryAligned(level, base, i);
        var below := level - 1;
        forall va: nat | MappedBy(below, at, 0, ENTRIES, va)
          ensures Sound(StopOf(m, e.addr, below, va))
        {
          IndexIn(level, base, i, va);
          assert MappedBy(level, base, lo, hi, va) && Sound(StopOf(m, t, level, va));
        }
        WalksMakeScannable(m, e.addr, below, at, 0, ENTRIES);
      }
    }
  }

  predicate Sound(s: Option<Stop>) {
    s.Some? && !HalfMadeStop(s.value)
  }

  /** What an entry above the last tables maps is aligned to what the table below it maps. */
  lemma EntryAligned(level: nat, base: int, i: nat)
    requires 2 <= level <= 4 && 0 <= base && base % (ENTRIES * Size(level)) == 0
    ensures Size(level) == ENTRIES * Size(level - 1) && (base + i * Size(level)) % Size(level) == 0 && i * Size(level) >= 0
  {
    match level {
      case 2 => MultipleOf(base, 0x20_0000, i);
      case 3 => MultipleOf(base, 0x4000_0000, i);
      case 4 => MultipleOf(base, 0x80_0000_0000, i);
    }
  }

  lemma MultipleOf(base: nat, size: nat, i: nat)
    requires size > 0 && base % (512 * size) == 0
    ensures (base + i * size) % size == 0 && i * size >= 0
  {
    var q := base / (512 * size);
    Division(base, 512 * size);
    EntryStart(q, size, i);
    Remainder(base + i * size, size, q * 512 + i, 0);
  }

  /** The scan of the kernel's tables comes through exactly when no walk for an address of its range
      ends above the last tables at a used entry that is neither huge nor present. */
  lemma ScannableIs(m: Memory, root: Addr)
    requires root in m
    ensures Scannable(m, root, 4, 256, 511) <==>
              forall va: nat :: UPPER_HALF <= va < 0xffff_ff80_0000_0000 && !m[root][Index(4, va)].huge ==> Sound(StopOf(m, root, 4, va))
  {
    if Scannable(m, root, 4, 256, 511) {
      forall va: nat | UPPER_HALF <= va < 0xffff_ff80_0000_0000 && !m[root][Index(4, va)].huge
        ensures Sound(StopOf(m, root, 4, va))
      {
        UpperOffset(va);
        UnusedIsStop(m, root, 4, 256, 511, va);
      }
    }
    if forall va: nat :: UPPER_HALF <= va < 0xffff_ff80_0000_0000 && !m[root][Index(4, va)].huge ==> Sound(StopOf(m, root, 4, va)) {
      WalksMakeScannable(m, root, 4, UPPER_HALF - 256 * Size(4), 256, 511);
    }
  }

  /** None of them translates. */
  lemma KernelFreeIsUnmapped(m: Memory, root: Addr, va: nat)
    requires va in KernelFree(m, root)
    ensures GetPage(m, root, va) == None && Index(4, va) >= 256 && va >= UPPER_HALF
  {
    var base := UPPER_HALF - 256 * Size(4);
    assert UnderUnused(m, root, 4, base, 256, 511, va);
    EntryAtIs(4, base, 256);
    EntryAtIs(4, base, 511);
    assert va % (ENTRIES * Size(4)) == va - base;
    UnusedIsUnmapped(m, root, 4, va);
    OffsetInTable(4, va);
  }

  /** After a scan that came through, an upper entry that is used without being present is the
      last one, which the scan leaves out, or has the huge bit set. */
  lemma HalfMadeAfterScan(m: Memory, root: Addr, i: nat)
    requires Scannable(m, root, 4, 256, 511) && 256 <= i < ENTRIES
    ensures root in m && (m[root][i] != UNUSED && !m[root][i].present ==> i == 511 || m[root][i].huge)
  {
    assert Look(0);
    assert i < 511 ==> ScannableEntry(m, m[root][i], 4);
  }

  /** The whole scan hands over ascending regions with gaps between them, so maximal ones, whose
      union is exactly the addresses under unused entries. */
  method ScanKernel(m: Memory, root: Addr, ghost ids: map<Addr, TableId>) returns (ok: bool, out: seq<Region>)
    requires WellPlaced(m, ids) && root in m && ids[root] == RootId(root)
    ensures ok <==> Scannable(m, root, 4, 256, 511)
    ensures ok ==> Coalesced(out) && FreeAddrs(out) == KernelFree(m, root)
  {
    var pending;
    EntryAtIs(4, UPPER_HALF - 256 * Size(4), 256);
    ok, out, pending := Scan(m, root, 256, 511, UPPER_HALF, 4, [], None, UPPER_HALF - 256 * Size(4), ids);
    assert FreeAddrs([]) == iset{};
    assert Look(0);
    if ok {
      AddsSeen([], None, out, pending, EntryAt(4, UPPER_HALF - 256 * Size(4), 511), KernelFree(m, root));
    }
    if ok && pending.Some? {
      out := out + [pending.value];
    }
  }

  /** The kernel allocator after start-up holds exactly the scanned regions. Freeing them as coded
      takes `pages` frames for the pages of the allocator. */
  method InitKernelVirtualAlloc(m: Memory, root: Addr, ghost ids: map<Addr, TableId>)
    returns (ok: bool, alloc: VA.VirtualAllocator, out: seq<Region>, pages: nat)
    requires WellPlaced(m, ids) && root in m && ids[root] == RootId(root)
    ensures ok <==> Scannable(m, root, 4, 256, 511)
    ensures ok ==> fresh(alloc) && alloc.Valid() && alloc.Free() == KernelFree(m, root)
    ensures ok ==> forall va :: va in alloc.Free() <==>
                      UPPER_HALF <= va < 0xffff_ff80_0000_0000 && !m[root][Index(4, va)].huge && StopsAt(m, root, va, UNUSED)
    ensures ok ==> Coalesced(out) && FreeAddrs(out) == KernelFree(m, root) && pages == VC.PagesFor(|out|)
  {
    ok, out := ScanKernel(m, root, ids);
    alloc := new VA.VirtualAllocator();
    pages := 0;
    if !ok {
      return;
    }
    pages := PagesTaken(out);
    for i := 0 to |out|
      invariant fresh(alloc) && alloc.Valid() && alloc.Free() == FreeAddrs(out[..i])
    {
      CoalescedIsOrdered(out, 0);
      FreeAddrsConcat(out[..i], [out[i]]);
      assert out[..i + 1] == out[..i] + [out[i]];
      FreeAddrsOne(out[i]);
      StretchesDisjoint(out, 0, i, i, i + 1);
      assert out[0..i] == out[..i] && out[i..i + 1] == [out[i]];
      var freed := alloc.FreeRegion(out[i]);
    }
    assert out[..|out|] == out;
    forall va
      ensures va in KernelFree(m, root) <==>
                UPPER_HALF <= va < 0xffff_ff80_0000_0000 && !m[root][Index(4, va)].huge && StopsAt(m, root, va, UNUSED)
    {
      KernelFreeIs(m, root, va);
    }
  }

  /** The frames that freeing ascending regions takes. */
  method PagesTaken(rs: seq<Region>) returns (pages: nat)
    requires Coalesced(rs)
    ensures pages == VC.PagesFor(|rs|)
  {
    forall r | r in rs
      ensures r.start <= r.end
    {
      var i :| 0 <= i < |rs| && rs[i] == r;
      assert Proper(rs[i]);
    }
    ghost var h, ps := VC.AscendingTakes(rs);
    pages := VC.FreeAll(W.EMPTY, rs).value.spare - 1;
  }

  /** The offsets that belong to entry `i`. */
  lemma EntryOf(level: nat, i: nat, off: int)
    requires 1 <= level <= 4 && i * Size(level) <= off < (i + 1) * Size(level)
    ensures off / Size(level) == i && off % Size(level) == off - i * Size(level)
    ensures level > 1 ==> Size(level) == ENTRIES * Size(level - 1)
  {
    match level {
      case 1 =>
      case 2 =>
      case 3 =>
      case 4 =>
    }
  }

  /** What the next entry of a table adds to the addresses under unused entries. */
  ghost function EntryAdds(m: Memory, e: Entry, level: nat, at: int): iset<int>
    requires level >= 1
  {
    if e == UNUSED then Addrs(Region(at, at + Size(level)))
    else if level > 1 && !e.huge then UnusedIn(m, e.addr, level - 1, at, 0, ENTRIES)
    else iset{}
  }

  lemma NextEntryUnused(m: Memory, t: Addr, level: nat, base: int, lo: nat, i: nat)
    requires t in m && 1 <= level <= 4 && lo <= i < ENTRIES && base % PAGE_SIZE == 0
    ensures UnusedIn(m, t, level, base, lo, i + 1)
         == UnusedIn(m, t, level, base, lo, i) + EntryAdds(m, m[t][i], level, EntryAt(level, base, i))
  {
    EntryAtMonotone(level, base, lo, i);
    forall a: int
      ensures UnderUnused(m, t, level, base, lo, i + 1, a)
              <==> UnderUnused(m, t, level, base, lo, i, a) || a in EntryAdds(m, m[t][i], level, EntryAt(level, base, i))
    {
      EntryAddsAt(m, t, level, base, i, a);
    }
  }

  lemma {:induction false} EntryAtMonotone(level: nat, base: int, lo: nat, i: nat)
    requires lo <= i
    ensures EntryAt(level, base, lo) <= EntryAt(level, base, i)
    decreases i
  {
    if lo < i {
      EntryAtMonotone(level, base, lo, i - 1);
    }
  }

  /** The entries of a table fill the entry above it. */
  lemma WholeTable(level: nat, at: int)
    requires 2 <= level <= 4 && at % PAGE_SIZE == 0
    ensures EntryAt(level - 1, at, ENTRIES) == at + Size(level)
  {
    EntryAtIs(level - 1, at, ENTRIES);
    EntryOf(level, 0, 0);
  }

  lemma EntryAddsAt(m: Memory, t: Addr, level: nat, base: int, i: nat, a: int)
    requires t in m && 1 <= level <= 4 && i < ENTRIES && base % PAGE_SIZE == 0
    ensures var at := EntryAt(level, base, i);
            a in EntryAdds(m, m[t][i], level, at) <==> at <= a < at + Size(level) && Unused(m, t, level, a - base)
  {
    var at := EntryAt(level, base, i);
    EntryAtIs(level, base, i);
    EntryAddsIn(m, m[t][i], level, at, a);
    if at <= a < at + Size(level) {
      assert (i + 1) * Size(level) == i * Size(level) + Size(level);
      EntryOf(level, i, a - base);
      InRange(level, i, a - base);
    }
  }

  /** Which addresses an entry that maps addresses from `at` on adds. */
  lemma EntryAddsIn(m: Memory, e: Entry, level: nat, at: int, a: int)
    requires 1 <= level <= 4 && at % PAGE_SIZE == 0
    ensures a in EntryAdds(m, e, level, at) <==>
              && at <= a < at + Size(level)
              && (e == UNUSED || (level > 1 && !e.huge && Unused(m, e.addr, level - 1, a - at)))
  {
    if level > 1 {
      WholeTable(level, at);
    }
  }

  lemma InRange(level: nat, i: nat, off: int)
    requires 1 <= level <= 4 && i < ENTRIES && i * Size(level) <= off < (i + 1) * Size(level)
    ensures 0 <= off < ENTRIES * Size(level)
  {
    match level {
      case 1 =>
      case 2 =>
      case 3 =>
      case 4 =>
    }
  }
}
