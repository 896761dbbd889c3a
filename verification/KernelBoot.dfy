/** Starting the kernel's address space from the tables of the boot loader: the scan for free
    addresses, the completion of the upper half, and what a half-made entry leads to.
 */
module KernelBoot {
  import opened Basics
  import opened Regions
  import opened PageTables
  import opened AddressSpaces
  import opened FreeScan
  import VA = VirtualAlloc
  import VC = VirtualCoded
  import F = Frames
  import H = PagedHeaps

  datatype Boot = Ready | AbsentEntry | OutOfFrames

  /** Makes the boot tables the kernel's. The scan comes first and panics at a used entry that is
      neither huge nor present; the `runs` that it finds take frames for the pages of the allocator,
      and then the upper half is completed, which takes one for every unused entry; too few frames
      are a panic. Where neither happens every free address is in the upper half and unmapped, and
      the spaces will share the upper half if and only if no upper entry was used without being
      present; such an entry can only be the last one, or one with the huge bit. */
  method InitKernelAddrspace(machine: Machine) returns (r: Boot, alloc: VA.VirtualAllocator, runs: seq<Region>)
    requires machine.Trees() && machine.spaces == {machine.kernel}
    modifies machine`tables, machine`free, machine`ids
    ensures r.AbsentEntry? <==> !Scannable(old(machine.tables), machine.kernel, 4, 256, 511)
    ensures !r.AbsentEntry? ==> Coalesced(runs) && FreeAddrs(runs) == KernelFree(old(machine.tables), machine.kernel)
    ensures r.OutOfFrames? <==> Scannable(old(machine.tables), machine.kernel, 4, 256, 511)
                                && |old(machine.free)| < VC.PagesFor(|runs|) + UnusedUpper(old(machine.tables)[machine.kernel], ENTRIES)
    ensures r.Ready? ==> machine.Trees() && (machine.Valid() <==> NoHalfMadeEntries(old(machine.tables)[machine.kernel]))
    ensures r.Ready? ==> forall i :: 256 <= i < ENTRIES && !machine.tables[machine.kernel][i].present
                                     ==> i == 511 || old(machine.tables)[machine.kernel][i].huge
    ensures r.Ready? ==> machine.kernel in machine.tables && forall i :: 256 <= i < ENTRIES ==>
                           (machine.tables[machine.kernel][i].present
                            <==> old(machine.tables)[machine.kernel][i].present || old(machine.tables)[machine.kernel][i] == UNUSED)
    ensures r.Ready? ==> |machine.free| == |old(machine.free)| - VC.PagesFor(|runs|) - UnusedUpper(old(machine.tables)[machine.kernel], ENTRIES)
    ensures r.Ready? ==> forall va :: GetPage(machine.tables, machine.kernel, va)
                                      == if Index(4, va) < 256 then None else GetPage(old(machine.tables), machine.kernel, va)
    ensures r.Ready? ==> fresh(alloc) && alloc.Valid() && alloc.Free() == KernelFree(old(machine.tables), machine.kernel)
    ensures r.Ready? ==> machine.kernel in old(machine.tables) && forall va :: va in alloc.Free() <==>
                           UPPER_HALF <= va < 0xffff_ff80_0000_0000 && !old(machine.tables)[machine.kernel][Index(4, va)].huge
                           && StopsAt(old(machine.tables), machine.kernel, va, UNUSED)
    ensures r.Ready? && NothingHalfMade(old(machine.tables), machine.kernel) ==> forall va :: va in alloc.Free() <==>
                           UPPER_HALF <= va < 0xffff_ff80_0000_0000 && GetPage(machine.tables, machine.kernel, va) == None
    ensures r.Ready? ==> forall va :: va in alloc.Free() ==> va >= UPPER_HALF && GetPage(machine.tables, machine.kernel, va) == None
  {
    ghost var m, ids := machine.tables, machine.ids;
    var ok, pages;
    ok, alloc, runs, pages := InitKernelVirtualAlloc(machine.tables, machine.kernel, machine.ids);
    if !ok {
      return AbsentEntry, alloc, runs;
    }
    ok := machine.TakeFrames(pages);
    if !ok {
      return OutOfFrames, alloc, runs;
    }
    ok := machine.InitKernelSpace();
    if !ok {
      return OutOfFrames, alloc, runs;
    }
    r := Ready;
    forall va | va in alloc.Free()
      ensures va >= UPPER_HALF && GetPage(machine.tables, machine.kernel, va) == None
    {
      FreeIsHigh(m, machine.kernel, va);
      KernelFreeIsUnmapped(m, machine.kernel, va);
    }
    if NothingHalfMade(m, machine.kernel) {
      AllUnmappedFree(m, ids, machine.kernel, machine.tables);
    }
    forall i | 256 <= i < ENTRIES && !machine.tables[machine.kernel][i].present
      ensures i == 511 || m[machine.kernel][i].huge
    {
      HalfMadeAfterScan(m, machine.kernel, i);
    }
  }

  lemma AllUnmappedFree(m: Memory, ids: map<Addr, TableId>, root: Addr, m': Memory)
    requires WellPlaced(m, ids) && root in m && ids[root] == RootId(root) && NothingHalfMade(m, root)
    requires forall va: nat :: GetPage(m', root, va) == if Index(4, va) < 256 then None else GetPage(m, root, va)
    ensures forall va :: va in KernelFree(m, root) <==> UPPER_HALF <= va < 0xffff_ff80_0000_0000 && GetPage(m', root, va) == None
  {
    forall va
      ensures va in KernelFree(m, root) <==> UPPER_HALF <= va < 0xffff_ff80_0000_0000 && GetPage(m', root, va) == None
    {
      UnmappedIsFree(m, ids, root, va);
      if UPPER_HALF <= va < 0xffff_ff80_0000_0000 {
        UpperOffset(va);
      }
    }
  }

  lemma FreeIsHigh(m: Memory, root: Addr, va: int)
    requires va in KernelFree(m, root)
    ensures va >= UPPER_HALF
  {
    var base := UPPER_HALF - 256 * Size(4);
    assert UnderUnused(m, root, 4, base, 256, 511, va);
    EntryAtIs(4, base, 256);
  }

  /** The page-based allocator of the kernel starts out from what the boot tables map and from what
      the scan found free; the two never overlap. */
  method StartHeap(machine: Machine, fs: F.FrameAllocator, mapped: map<int, H.Mapping>)
    returns (r: Boot, heap: H.PagedHeap?, runs: seq<Region>)
    requires machine.Trees() && machine.spaces == {machine.kernel} && fs.Valid()
    requires forall p :: p in mapped ==> p >= 0 && p % PAGE_SIZE == 0 && GetPage(machine.tables, machine.kernel, p).Some?
    modifies machine`tables, machine`free, machine`ids
    ensures !r.AbsentEntry? ==> Coalesced(runs) && FreeAddrs(runs) == KernelFree(old(machine.tables), machine.kernel)
    ensures r.Ready? <==> Scannable(old(machine.tables), machine.kernel, 4, 256, 511)
                          && |old(machine.free)| >= VC.PagesFor(|runs|) + UnusedUpper(old(machine.tables)[machine.kernel], ENTRIES)
    ensures r.Ready? ==> heap != null && heap.Valid() && heap.back.mapping == mapped && heap.back.frames == fs
    ensures r.Ready? ==> heap.virt.Free() == KernelFree(old(machine.tables), machine.kernel)
    ensures r.Ready? ==> machine.kernel in old(machine.tables) && forall va :: va in heap.virt.Free() <==>
                           UPPER_HALF <= va < 0xffff_ff80_0000_0000 && !old(machine.tables)[machine.kernel][Index(4, va)].huge
                           && StopsAt(old(machine.tables), machine.kernel, va, UNUSED)
    ensures r.Ready? && NothingHalfMade(old(machine.tables), machine.kernel) ==> forall va :: va in heap.virt.Free() <==>
                           UPPER_HALF <= va < 0xffff_ff80_0000_0000 && GetPage(machine.tables, machine.kernel, va) == None
  {
    ghost var m := machine.tables;
    heap := null;
    var alloc;
    r, alloc, runs := InitKernelAddrspace(machine);
    if r.Ready? {
      forall p | p in mapped
        ensures p !in alloc.Free()
      {
        if p in KernelFree(m, machine.kernel) {
          KernelFreeIsUnmapped(m, machine.kernel, p);
        }
      }
      heap := new H.PagedHeap(alloc, fs, mapped);
    }
  }

  /** The addresses that a new user space may hand out. */
  const USER: Region := Region(0x1000, 0x7fff_ffff_f000)

  /** A new user space: the shared upper half, an empty lower half, and an allocator that holds
      the lower half except for its first and last page. None of those addresses is mapped. */
  method NewUserSpace(machine: Machine) returns (root: Option<Addr>, alloc: VA.VirtualAllocator)
    requires machine.Trees()
    modifies machine`tables, machine`free, machine`ids, machine`spaces
    ensures machine.Trees() && (old(machine.Valid()) ==> machine.Valid())
    ensures root.None? <==> |old(machine.free)| < 2
    ensures root.Some? ==> |machine.free| == |old(machine.free)| - 1 - VC.PagesFor(1)
    ensures root.Some? ==> root.value !in old(machine.spaces) && machine.spaces == old(machine.spaces) + {root.value}
    ensures root.Some? ==> forall va :: GetPage(machine.tables, root.value, va)
                                        == if Index(4, va) < 256 then None else GetPage(old(machine.tables), machine.kernel, va)
    ensures root.Some? ==> fresh(alloc) && alloc.Valid() && forall va :: va in alloc.Free() <==> 0x1000 <= va < 0x8000_0000_0000 - 0x1000
    ensures root.Some? ==> forall va :: va in alloc.Free() ==> va >= 0 && Canonical(va) && GetPage(machine.tables, root.value, va) == None
    ensures SameTranslations(old(machine.tables), machine.tables, old(machine.spaces))
  {
    root := machine.NewSpace();
    alloc := new VA.VirtualAllocator();
    if root.Some? {
      var ok := alloc.FreeRegion(USER);
      forall va | va in alloc.Free()
        ensures va >= 0 && Canonical(va) && GetPage(machine.tables, root.value, va) == None
      {
        UpperHalfIndex(va);
      }
    }
  }

  // ---- half-made entries ----

  /** A missing top-level entry takes three tables to fill. */
  lemma AbsentTakesThree(m: Memory, root: Addr, va: nat)
    requires root in m && !m[root][Index(4, va)].present
    ensures Missing(m, root, 4, va) == 3 && !OnHugePage(m, root, 4, va) && GetPage(m, root, va) == None
  {
  }

  /** If an upper entry of the kernel is absent, a space that is created now and a kernel mapping
      that is made afterwards disagree: the kernel translates the page, the space does not. So the
      spaces can be relied on to agree exactly when the upper half is complete. */
  method Disagree(machine: Machine, va: nat, mapping: Mapping) returns (space: Addr)
    requires machine.Trees() && Canonical(va) && va % 0x1000 == 0 && mapping.frame % 0x1000 == 0 && |machine.free| >= 5
    requires va >= UPPER_HALF && !machine.tables[machine.kernel][Index(4, va)].present
    modifies machine`tables, machine`free, machine`ids, machine`spaces
    ensures machine.Trees() && {machine.kernel, space} <= machine.spaces
    ensures GetPage(machine.tables, machine.kernel, va) == Some(mapping)
    ensures GetPage(machine.tables, space, va) == None
  {
    UpperHalfIndex(va);
    AbsentTakesThree(machine.tables, machine.kernel, va);
    var created := machine.NewSpace();
    space := created.value;
    AbsentTakesThree(machine.tables, machine.kernel, va);
    AbsentTakesThree(machine.tables, space, va);
    var done := machine.SetPageKernel(machine.kernel, va, Some(mapping));
    assert machine.tables[space] == machine.tables[space];
  }

  // ---- a boot state in which that happens ----

  /** All entries unused but the last, which has a bit set and is not present. */
  function HalfMade(): (t: Table)
    ensures forall i :: 0 <= i < ENTRIES - 1 ==> t[i] == UNUSED
    ensures t[511] != UNUSED && !t[511].present
  {
    seq(511, _ => UNUSED) + [UNUSED.(other := 1)]
  }

  function SomeFrames(n: nat): (frames: seq<Addr>)
    ensures |frames| == n && forall i :: 0 <= i < n ==> frames[i] == FrameAt(i)
  {
    seq(n, i requires 0 <= i < n => FrameAt(i))
  }

  function FrameAt(i: nat): Addr {
    0x2000 + i * 0x1000
  }

  lemma {:induction false} HalfMadeUnused(n: nat)
    requires 256 <= n <= ENTRIES - 1
    ensures UnusedUpper(HalfMade(), n) == n - 256
  {
    if n > 256 {
      HalfMadeUnused(n - 1);
    }
  }

  const BOOT_ROOT: Addr := 0x1000

  function BootMemory(): Memory {
    map[BOOT_ROOT := HalfMade()]
  }

  function BootPlaces(): map<Addr, TableId> {
    map[BOOT_ROOT := RootId(BOOT_ROOT)]
  }

  lemma BootTables()
    ensures WellPlaced(BootMemory(), BootPlaces()) && Scannable(BootMemory(), BOOT_ROOT, 4, 256, 511)
    ensures UnusedUpper(HalfMade(), ENTRIES) == 255
  {
    HalfMadeUnused(511);
    forall i | 0 <= i < ENTRIES
      ensures EntryPlaced(BootMemory(), BootPlaces(), BOOT_ROOT, i)
    {
      assert !HalfMade()[i].present;
    }
  }

  lemma FramesApart(n: nat)
    ensures Distinct(SomeFrames(n))
    ensures forall i :: 0 <= i < n ==> SomeFrames(n)[i] !in BootMemory() && SomeFrames(n)[i] % 0x1000 == 0
  {
  }

  /** The unused entries of that table are one run. */
  lemma OneRun(runs: seq<Region>)
    requires Coalesced(runs) && FreeAddrs(runs) == KernelFree(BootMemory(), BOOT_ROOT)
    ensures |runs| == 1
  {
    var base := UPPER_HALF - 256 * Size(4);
    EntryAtIs(4, base, 256);
    EntryAtIs(4, base, 511);
    var run := Region(EntryAt(4, base, 256), EntryAt(4, base, 511));
    forall a: int
      ensures a in KernelFree(BootMemory(), BOOT_ROOT) <==> Has(run, a)
    {
      assert Has(run, a) ==> 256 <= (a - base) / Size(4) < 511;
    }
    FreeAddrsOne(run);
    assert FreeAddrs([run]) == FreeAddrs(runs);
    CoalescedIsCanonical([run], runs);
  }

  method BootMachine() returns (machine: Machine)
    ensures fresh(machine) && machine.Trees() && machine.spaces == {machine.kernel} && |machine.free| == 300
    ensures machine.kernel == BOOT_ROOT && machine.tables == BootMemory()
  {
    BootTables();
    FramesApart(300);
    machine := new Machine(BootMemory(), BOOT_ROOT, SomeFrames(300), BootPlaces());
  }

  /** The last page of the address space. */
  const LAST_PAGE: nat := 0xffff_ffff_ffff_f000

  lemma LastPageIndex()
    ensures Canonical(LAST_PAGE) && LAST_PAGE % 0x1000 == 0 && LAST_PAGE >= UPPER_HALF && Index(4, LAST_PAGE) == 511
  {
  }

  /** From a boot loader's table whose last entry is half made, the kernel starts up, creates a
      space and maps a page of the upper half, and the two translate that page differently. */
  method HalfMadeWitness(mapping: Mapping) returns (machine: Machine, r: Boot, space: Addr)
    requires mapping.frame % 0x1000 == 0
    ensures fresh(machine) && machine.Trees() && r.Ready? && {machine.kernel, space} <= machine.spaces
    ensures GetPage(machine.tables, machine.kernel, LAST_PAGE) == Some(mapping)
    ensures GetPage(machine.tables, space, LAST_PAGE) == None
  {
    machine := BootMachine();
    BootTables();
    LastPageIndex();
    var alloc, runs;
    r, alloc, runs := InitKernelAddrspace(machine);
    OneRun(runs);
    space := Disagree(machine, LAST_PAGE, mapping);
  }
}
