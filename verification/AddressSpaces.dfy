/** Address spaces over shared page tables: mapping pages, creating spaces and the upper half
    that every space shares with the kernel.
 */
module AddressSpaces {
  import opened Basics
  import opened PageTables

  datatype Outcome = Done | OutOfMemory | HugePage | BadAddress | BadFrame | WrongSpace

  /** Tables may be added and existing ones keep their place. */
  ghost predicate Grows(m: Memory, ids: map<Addr, TableId>, m': Memory, ids': map<Addr, TableId>) {
    forall t :: t in m && t in ids ==> t in m' && t in ids' && ids'[t] == ids[t]
  }

  /** Every walk from a table that existed before gives what it gave. */
  ghost predicate KeepsWalks(m: Memory, ids: map<Addr, TableId>, m': Memory) {
    forall t, level, va :: t in m && t in ids && level >= 1 && AtLevel(ids[t], level)
                           ==> Walk(m', t, level, va) == Walk(m, t, level, va)
  }

  lemma WalksCompose(m: Memory, ids: map<Addr, TableId>, m1: Memory, ids1: map<Addr, TableId>, m2: Memory)
    requires Grows(m, ids, m1, ids1) && KeepsWalks(m, ids, m1) && KeepsWalks(m1, ids1, m2)
    ensures KeepsWalks(m, ids, m2)
  {
    forall t, level, va | t in m && t in ids && level >= 1 && AtLevel(ids[t], level)
      ensures Walk(m2, t, level, va) == Walk(m, t, level, va)
    {
      assert Walk(m1, t, level, va) == Walk(m, t, level, va);
    }
  }

  /** And every page can be used as before, as far as the entries above the last one go. */
  ghost predicate KeepsAccess(m: Memory, ids: map<Addr, TableId>, m': Memory) {
    forall t, level, va :: t in m && t in ids && level >= 1 && AtLevel(ids[t], level)
                           ==> Above(m', t, level, va) == Above(m, t, level, va)
  }

  lemma AccessComposes(m: Memory, ids: map<Addr, TableId>, m1: Memory, ids1: map<Addr, TableId>, m2: Memory)
    requires Grows(m, ids, m1, ids1) && KeepsAccess(m, ids, m1) && KeepsAccess(m1, ids1, m2)
    ensures KeepsAccess(m, ids, m2)
  {
    forall t, level, va | t in m && t in ids && level >= 1 && AtLevel(ids[t], level)
      ensures Above(m2, t, level, va) == Above(m, t, level, va)
    {
      assert Above(m1, t, level, va) == Above(m, t, level, va);
    }
  }

  /** An update below entry `i` of table `t` changes no other table as high up as `t`, nor any other
      entry of `t`, nor that entry itself if it is present. */
  ghost predicate OnlyBelow(m: Memory, ids: map<Addr, TableId>, m': Memory, t: Addr, i: nat)
    requires t in ids
  {
    && (forall u :: u in m && u in ids && u != t && |ids[u].path| <= |ids[t].path| ==> u in m' && m'[u] == m[u])
    && t in m && t in m' && i < ENTRIES
    && (m'[t] == m[t] || (!m[t][i].present && forall j :: 0 <= j < ENTRIES && j != i ==> m'[t][j] == m[t][j]))
  }

  /** All that new tables below entry `i` of `t` leave as it was. */
  ghost predicate Updated(m: Memory, ids: map<Addr, TableId>, m': Memory, ids': map<Addr, TableId>, t: Addr, i: nat) {
    forall n: nat {:trigger Look(n)} :: Look(n) ==>
      Grows(m, ids, m', ids') && KeepsWalks(m, ids, m') && KeepsAccess(m, ids, m') && t in ids && OnlyBelow(m, ids, m', t, i)
  }

  lemma UpdatedIs(m: Memory, ids: map<Addr, TableId>, m': Memory, ids': map<Addr, TableId>, t: Addr, i: nat)
    requires Updated(m, ids, m', ids', t, i)
    ensures Grows(m, ids, m', ids') && KeepsWalks(m, ids, m') && KeepsAccess(m, ids, m') && t in ids && OnlyBelow(m, ids, m', t, i)
  {
    assert Look(0);
  }

  /** An update below `t`, and then one below a table that hangs under the same entry. */
  lemma UpdatesCompose(m: Memory, ids: map<Addr, TableId>, m1: Memory, ids1: map<Addr, TableId>, m2: Memory, ids2: map<Addr, TableId>,
                       t: Addr, i: nat, next: Addr, i1: nat)
    requires Updated(m, ids, m1, ids1, t, i) && Updated(m1, ids1, m2, ids2, next, i1)
    requires WellPlaced(m, ids) && t in m && t in ids && next in ids1 && ids1[next] == Child(ids[t], i)
    ensures Updated(m, ids, m2, ids2, t, i) && t in m1 && t in m2 && m2[t] == m1[t]
  {
    UpdatedIs(m, ids, m1, ids1, t, i);
    UpdatedIs(m1, ids1, m2, ids2, next, i1);
    WalksCompose(m, ids, m1, ids1, m2);
    AccessComposes(m, ids, m1, ids1, m2);
    DeeperKeepsEntry(m, ids, m1, ids1, m2, t, i, next, i1);
  }

  /** The walk for a page ends at a last-level entry with the bits of the mapping. */
  ghost predicate EntryHolds(m: Memory, root: Addr, va: nat, mapping: Mapping) {
    var s := StopOf(m, root, 4, va);
    s.Some? && s.value.level == 1
    && var e := s.value.entry;
       && e.present && e.addr == mapping.frame
       && e.user == mapping.flags.user && e.writable == mapping.flags.writeable && e.noExecute == !mapping.flags.executable
  }

  /** So code may do with the page what the mapping says, as far as the entries above allow. */
  lemma EntryPermits(m: Memory, root: Addr, va: nat, mapping: Mapping)
    requires EntryHolds(m, root, va, mapping)
    ensures Permitted(m, root, va) == Some(Both(Above(m, root, 4, va), Access(mapping.flags.user, mapping.flags.writeable, mapping.flags.executable)))
  {
  }

  /** Where the entries above allow everything, the flags of a page are what code may do with it. */
  lemma OpenPermits(m: Memory, root: Addr, va: nat)
    requires Above(m, root, 4, va) == FULL
    ensures Permitted(m, root, va) == match GetPage(m, root, va)
                                      case None => None
                                      case Some(p) => Some(Access(p.flags.user, p.flags.writeable, p.flags.executable))
  {
    WalkReads(m, root, 4, va);
  }

  ghost predicate SameAccess(m: Memory, m': Memory, spaces: set<Addr>) {
    forall s, va :: s in spaces ==> Above(m', s, 4, va) == Above(m, s, 4, va)
  }

  ghost predicate SameTranslations(m: Memory, m': Memory, spaces: set<Addr>) {
    forall r, va :: r in spaces ==> GetPage(m', r, va) == GetPage(m, r, va)
  }

  /** Whether an address of one space lies on another page than an address of another space; in
      the upper half all spaces have the same pages. */
  predicate Elsewhere(root: Addr, va: nat, root': Addr, va': nat) {
    PageNumber(va) != PageNumber(va') || (root != root' && Index(4, va) < 256)
  }

  /** The level-1 entry for a mapping. */
  function LeafEntry(mapping: Option<Mapping>): Entry {
    match mapping
    case Some(Mapping(frame, flags)) => ToX86Entry(frame, flags)
    case None => UNUSED
  }

  lemma LeafUpdateElsewhere(m: Memory, ids: map<Addr, TableId>, t1: Addr, root: Addr, va: nat, e: Entry, root': Addr, va': nat)
    requires WellPlaced(m, ids) && t1 in m && AtLevel(ids[t1], 1) && ids[t1] == LastTable(RootId(root), 4, va)
    requires root' in m && ids[root'] == RootId(root') && Elsewhere(root, va, root', va')
    ensures GetPage(m[t1 := m[t1][Index(1, va) := e]], root', va') == GetPage(m, root', va')
  {
    if LastTable(RootId(root'), 4, va') == ids[t1] && Index(1, va') == Index(1, va) {
      SameLastEntry(root, va, root', va');
    } else {
      LeafUpdateKeepsWalks(m, ids, t1, Index(1, va), e, root', 4, va');
    }
  }

  lemma LeafElsewhere(m: Memory, ids: map<Addr, TableId>, t1: Addr, root: Addr, va: nat, e: Entry, spaces: set<Addr>)
    requires WellPlaced(m, ids) && t1 in m && AtLevel(ids[t1], 1) && ids[t1] == LastTable(RootId(root), 4, va)
    requires forall r :: r in spaces ==> r in m && ids[r] == RootId(r)
    ensures forall r, va' :: r in spaces && Elsewhere(root, va, r, va')
                             ==> GetPage(m[t1 := m[t1][Index(1, va) := e]], r, va') == GetPage(m, r, va')
  {
    forall r, va' | r in spaces && Elsewhere(root, va, r, va')
      ensures GetPage(m[t1 := m[t1][Index(1, va) := e]], r, va') == GetPage(m, r, va')
    {
      LeafUpdateElsewhere(m, ids, t1, root, va, e, r, va');
    }
  }

  lemma LeafKeepsAccess(m: Memory, ids: map<Addr, TableId>, t1: Addr, i: nat, e: Entry, spaces: set<Addr>)
    requires WellPlaced(m, ids) && t1 in m && AtLevel(ids[t1], 1) && i < ENTRIES
    requires forall s :: s in spaces ==> s in m && ids[s] == RootId(s)
    ensures SameAccess(m, m[t1 := m[t1][i := e]], spaces)
  {
    forall s, va | s in spaces
      ensures Above(m[t1 := m[t1][i := e]], s, 4, va) == Above(m, s, 4, va)
    {
      LeafUpdateKeepsAccess(m, ids, t1, i, e, s, 4, va);
    }
  }

  lemma LeafPlaced(m: Memory, ids: map<Addr, TableId>, t1: Addr, i: nat, e: Entry)
    requires WellPlaced(m, ids) && t1 in m && AtLevel(ids[t1], 1) && i < ENTRIES
    ensures WellPlaced(m[t1 := m[t1][i := e]], ids)
  {
    var m' := m[t1 := m[t1][i := e]];
    forall t, j | t in m' && 0 <= j < ENTRIES
      ensures EntryPlaced(m', ids, t, j)
    {
      assert EntryPlaced(m, ids, t, j);
    }
  }

  /** The walk for `va` from `t` goes through present entries to the level-1 table `t1`. */
  predicate Leads(m: Memory, t: Addr, level: nat, va: nat, t1: Addr)
    decreases level
  {
    if level <= 1 then t == t1
    else t in m && var e := m[t][Index(level, va)];
         e.present && !IsLeaf(level, e) && Leads(m, e.addr, level - 1, va, t1)
  }

  /** A walk that leads to the rewritten entry reads it. */
  lemma {:induction false} LeadsAfterLeafUpdate(m: Memory, ids: map<Addr, TableId>, t: Addr, level: nat, va: nat, t1: Addr, e: Entry)
    requires WellPlaced(m, ids) && t in m && t1 in m && 1 <= level <= 4
    requires AtLevel(ids[t], level) && AtLevel(ids[t1], 1) && Leads(m, t, level, va, t1)
    ensures Walk(m[t1 := m[t1][Index(1, va) := e]], t, level, va)
         == if e.present then Some(Mapping(e.addr + va % 0x1000, ToGenericFlags(e))) else None
    decreases level
  {
    if level > 1 {
      assert EntryPlaced(m, ids, t, Index(level, va));
      LeadsAfterLeafUpdate(m, ids, m[t][Index(level, va)].addr, level - 1, va, t1, e);
    }
  }

  /** The walk then ends at that entry. */
  lemma {:induction false} LeadsToEntry(m: Memory, ids: map<Addr, TableId>, t: Addr, level: nat, va: nat, t1: Addr, e: Entry)
    requires WellPlaced(m, ids) && t in m && t1 in m && 1 <= level <= 4
    requires AtLevel(ids[t], level) && AtLevel(ids[t1], 1) && Leads(m, t, level, va, t1)
    ensures StopOf(m[t1 := m[t1][Index(1, va) := e]], t, level, va) == Some(Stop(1, e))
    decreases level
  {
    if level > 1 {
      assert EntryPlaced(m, ids, t, Index(level, va));
      LeadsToEntry(m, ids, m[t][Index(level, va)].addr, level - 1, va, t1, e);
    }
  }

  lemma LeafReads(m: Memory, ids: map<Addr, TableId>, t1: Addr, root: Addr, va: nat, mapping: Option<Mapping>)
    requires WellPlaced(m, ids) && root in m && ids[root] == RootId(root) && t1 in m && AtLevel(ids[t1], 1)
    requires Leads(m, root, 4, va, t1) && va % 0x1000 == 0
    ensures GetPage(m[t1 := m[t1][Index(1, va) := LeafEntry(mapping)]], root, va) == mapping
  {
    LeafReadsAt(m, ids, root, 4, va, t1, mapping);
  }

  lemma LeafReadsAt(m: Memory, ids: map<Addr, TableId>, t: Addr, level: nat, va: nat, t1: Addr, mapping: Option<Mapping>)
    requires WellPlaced(m, ids) && t in m && t1 in m && 1 <= level <= 4 && AtLevel(ids[t], level) && AtLevel(ids[t1], 1)
    requires Leads(m, t, level, va, t1) && va % 0x1000 == 0
    ensures Walk(m[t1 := m[t1][Index(1, va) := LeafEntry(mapping)]], t, level, va) == mapping
  {
    LeadsAfterLeafUpdate(m, ids, t, level, va, t1, LeafEntry(mapping));
  }

  /** Tables that a new mapping for `va` would have to add below a table at `level`. */
  function Missing(m: Memory, t: Addr, level: nat, va: nat): nat
    decreases level
  {
    if level <= 1 || t !in m then 0
    else
      var e := m[t][Index(level, va)];
      if !e.present then level - 1
      else if IsLeaf(level, e) then 0
      else Missing(m, e.addr, level - 1, va)
  }

  /** Whether the walk for `va` ends at a huge page. */
  predicate OnHugePage(m: Memory, t: Addr, level: nat, va: nat)
    decreases level
  {
    level > 1 && t in m
    && var e := m[t][Index(level, va)];
       e.present && (IsLeaf(level, e) || OnHugePage(m, e.addr, level - 1, va))
  }

  /** What comes of mapping or unmapping a page when there are `frames` free frames for tables. A
      frame that is not page-aligned is noticed last, after tables have been added. */
  function Verdict(m: Memory, root: Addr, va: nat, mapping: Option<Mapping>, frames: nat): Outcome {
    if va % 0x1000 != 0 then BadAddress
    else if OnHugePage(m, root, 4, va) then HugePage
    else if mapping.Some? && frames < Missing(m, root, 4, va) then OutOfMemory
    else if mapping.Some? && mapping.value.frame % 0x1000 != 0 then BadFrame
    else Done
  }

  /** The entry where the walk ends tells how many tables are missing, and whether a huge page is in
      the way. */
  lemma {:induction false} StopTells(m: Memory, t: Addr, level: nat, va: nat)
    requires level >= 1 && StopOf(m, t, level, va).Some?
    ensures var s := StopOf(m, t, level, va).value;
            && 1 <= s.level <= level
            && (OnHugePage(m, t, level, va) <==> s.entry.present && s.level > 1)
            && Missing(m, t, level, va) == if s.entry.present then 0 else s.level - 1
    decreases level
  {
    var e := m[t][Index(level, va)];
    if e.present && !IsLeaf(level, e) {
      StopTells(m, e.addr, level - 1, va);
    }
  }

  /** Every walk from a placed table ends in some entry. */
  lemma {:induction false} WalkEnds(m: Memory, ids: map<Addr, TableId>, t: Addr, level: nat, va: nat)
    requires WellPlaced(m, ids) && t in m && 1 <= level <= 4 && AtLevel(ids[t], level)
    ensures StopOf(m, t, level, va).Some?
    decreases level
  {
    var e := m[t][Index(level, va)];
    assert EntryPlaced(m, ids, t, Index(level, va));
    if e.present && !IsLeaf(level, e) {
      WalkEnds(m, ids, e.addr, level - 1, va);
    }
  }

  /** A page can be mapped exactly if page and frame are aligned, the walk does not end at a huge
      page, and there is a frame for each level between the entry where it ends and the last one;
      it can be unmapped exactly if it is aligned and the walk does not end at a huge page. */
  lemma VerdictIs(m: Memory, ids: map<Addr, TableId>, root: Addr, va: nat, mapping: Option<Mapping>, frames: nat)
    requires WellPlaced(m, ids) && root in m && ids[root] == RootId(root)
    ensures StopOf(m, root, 4, va).Some?
    ensures var s, r := StopOf(m, root, 4, va).value, Verdict(m, root, va, mapping, frames);
            && (r.Done? <==> && va % 0x1000 == 0 && !(s.entry.present && s.level > 1)
                             && (mapping.Some? ==> mapping.value.frame % 0x1000 == 0 && (s.entry.present || s.level - 1 <= frames)))
            && (r.BadAddress? <==> va % 0x1000 != 0)
            && (r.HugePage? ==> s.entry.present && s.level > 1)
            && (r.OutOfMemory? ==> mapping.Some? && !s.entry.present && frames < s.level - 1)
            && (r.BadFrame? ==> mapping.Some? && mapping.value.frame % 0x1000 != 0)
            && !r.WrongSpace?
  {
    WalkEnds(m, ids, root, 4, va);
    StopTells(m, root, 4, va);
  }

  /** The upper half of the table at `r` is that of the kernel, and complete. */
  ghost predicate SharesUpperHalf(m: Memory, r: Addr, kernel: Addr) {
    && r in m && kernel in m
    && (forall i :: 256 <= i < ENTRIES ==> m[r][i] == m[kernel][i] && m[kernel][i].present)
  }

  lemma UpperWalksAgree(m: Memory, r: Addr, kernel: Addr, va: nat)
    requires SharesUpperHalf(m, r, kernel) && Index(4, va) >= 256
    ensures GetPage(m, r, va) == GetPage(m, kernel, va)
  {
  }

  ghost predicate AllShare(m: Memory, spaces: set<Addr>, kernel: Addr) {
    forall r :: r in spaces ==> SharesUpperHalf(m, r, kernel)
  }

  /** Updates below entry `i` of one top-level table keep the upper halves the same: either the
      entry is in the lower half, or it is present and no top-level table changes at all. */
  lemma UpdateKeepsSharing(m: Memory, ids: map<Addr, TableId>, m': Memory, spaces: set<Addr>, kernel: Addr, root: Addr, i: nat)
    requires root in spaces && kernel in spaces && (forall r :: r in spaces ==> r in m && r in ids && ids[r] == RootId(r))
    requires OnlyBelow(m, ids, m', root, i)
    ensures AllShare(m, spaces, kernel) ==> AllShare(m', spaces, kernel)
  {
    if AllShare(m, spaces, kernel) {
      assert SharesUpperHalf(m, root, kernel);
      forall r | r in spaces
        ensures SharesUpperHalf(m', r, kernel)
      {
        assert SharesUpperHalf(m, r, kernel);
      }
    }
  }

  lemma UpperHalfIndex(va: nat)
    requires Canonical(va)
    ensures Index(4, va) >= 256 <==> va >= UPPER_HALF
  {
  }

  /** A top-level table with an empty lower half and the upper half of another. */
  method UpperHalfOf(k4: Table) returns (l4: Table)
    ensures forall i :: 0 <= i < ENTRIES ==> l4[i] == if i < 256 then UNUSED else k4[i]
  {
    l4 := k4;
    for i := 0 to 256
      invariant |l4| == ENTRIES
      invariant forall j :: 0 <= j < ENTRIES ==> l4[j] == if j < i then UNUSED else k4[j]
    {
      l4 := l4[i := UNUSED];
    }
  }

  /** Upper entries of a top-level table that are neither unused nor present would stay absent. */
  predicate NoHalfMadeEntries(l4: Table) {
    forall i :: 256 <= i < ENTRIES && l4[i] != UNUSED ==> l4[i].present
  }

  /** A present entry under which the kernel may write and execute, and user code nothing. */
  predicate KernelOnly(e: Entry) {
    e.present && e.writable && !e.user && !e.noExecute && !e.huge
  }

  /** How many of the upper entries before `n` are unused. */
  function UnusedUpper(l4: Table, n: nat): nat
    requires n <= ENTRIES
  {
    if n <= 256 then 0 else UnusedUpper(l4, n - 1) + if l4[n - 1] == UNUSED then 1 else 0
  }

  class Machine {
    var tables: Memory
    /** Frames that are free to hold new tables, the next one last. */
    var free: seq<Addr>
    var kernel: Addr
    ghost var ids: map<Addr, TableId>
    ghost var spaces: set<Addr>

    /** The tables form trees in which each table has one place; no free frame holds a table. */
    ghost predicate Trees()
      reads this
    {
      && WellPlaced(tables, ids)
      && (forall i :: 0 <= i < |free| ==> free[i] !in tables && free[i] % 0x1000 == 0)
      && Distinct(free)
      && (forall r :: r in spaces ==> r in tables && ids[r] == RootId(r))
      && kernel in spaces
    }

    /** What holds once the kernel space is initialised. */
    ghost predicate Valid()
      reads this
    {
      Trees() && AllShare(tables, spaces, kernel)
    }

    /** The machine as the boot loader leaves it: its tables form a tree, and no free frame holds
        one of them. */
    constructor (memory: Memory, root: Addr, frames: seq<Addr>, ghost places: map<Addr, TableId>)
      requires WellPlaced(memory, places) && root in memory && root in places && places[root] == RootId(root)
      requires Distinct(frames) && forall i :: 0 <= i < |frames| ==> frames[i] !in memory && frames[i] % 0x1000 == 0
      ensures Trees() && tables == memory && kernel == root && free == frames && spaces == {root}
    {
      tables, kernel, free, ids, spaces := memory, root, frames, places, {root};
    }

    /** One level of an update: the entry is given a new empty table when it has none. */
    method Descend(t: Addr, level: nat, va: nat, mapping: Option<Mapping>) returns (r: Outcome, next: Option<Addr>)
      requires Trees() && t in tables && 2 <= level <= 4 && AtLevel(ids[t], level)
      modifies this`tables, this`free, this`ids
      ensures Trees() && t in tables && Updated(old(tables), old(ids), tables, ids, t, Index(level, va))
      ensures r.Done? && next.Some? ==> next.value in tables && AtLevel(ids[next.value], level - 1)
      ensures r.Done? && next.Some? ==> ids[next.value] == Child(old(ids)[t], Index(level, va))
      ensures r.Done? && next.Some? ==> var e := tables[t][Index(level, va)];
                                        e.present && !IsLeaf(level, e) && e.addr == next.value
      ensures r.Done? || r.OutOfMemory? || r.HugePage?
      ensures r.Done? && next.None? ==> mapping.None? && !tables[t][Index(level, va)].present && tables == old(tables)
      ensures r.Done? && next.Some?
              ==> |free| - Missing(tables, next.value, level - 1, va) == old(|free| - Missing(tables, t, level, va))
      ensures r.Done? && next.Some? ==> OnHugePage(tables, next.value, level - 1, va) == old(OnHugePage(tables, t, level, va))
      ensures r.OutOfMemory? ==> mapping.Some? && old(|free| < Missing(tables, t, level, va))
      ensures r.HugePage? ==> old(OnHugePage(tables, t, level, va))
      ensures r.OutOfMemory? || (r.Done? && next.None?) ==> !old(OnHugePage(tables, t, level, va))
      ensures mapping.None? ==> tables == old(tables)
    {
      var i := Index(level, va);
      assert EntryPlaced(tables, ids, t, i);
      if !tables[t][i].present {
        if mapping.None? {
          return Done, None;
        }
        if free == [] {
          return OutOfMemory, None;
        }
        AddTable(t, level, i, true);
      }
      if IsLeaf(level, tables[t][i]) {
        return HugePage, None;
      }
      return Done, Some(tables[t][i].addr);
    }

    /** Takes a frame, clears it and hangs it under an absent entry. */
    method AddTable(t: Addr, level: nat, i: nat, user: bool)
      requires Trees() && t in tables && 2 <= level <= 4 && AtLevel(ids[t], level) && i < ENTRIES
      requires !tables[t][i].present && free != []
      modifies this`tables, this`free, this`ids
      ensures Trees() && Grows(old(tables), old(ids), tables, ids) && KeepsWalks(old(tables), old(ids), tables)
      ensures user ==> KeepsAccess(old(tables), old(ids), tables)
      ensures var n := old(free)[|old(free)| - 1];
              && tables == old(tables)[n := EmptyTable()][t := old(tables)[t][i := TableEntry(n, user)]]
              && n !in old(tables) && n != t
              && ids == old(ids)[n := Child(old(ids)[t], i)]
      ensures free == old(free)[..|old(free)| - 1]
    {
      var n := free[|free| - 1];
      free := free[..|free| - 1];
      ghost var m, was := tables, ids;
      tables := tables[n := EmptyTable()];
      tables := tables[t := tables[t][i := TableEntry(n, user)]];
      ids := ids[n := Child(ids[t], i)];
      NewTableKeepsAll(m, was, tables, t, i, n, user);
      if user {
        NewTableIsOpen(m, was, tables, t, i, n);
      }
      NewTablePlaced(m, was, tables, ids, t, i, n, user);
    }

    /** The three steps of an update that lead to the level-1 table for `va`. */
    method FindLastTable(t: Addr, level: nat, va: nat, mapping: Option<Mapping>) returns (r: Outcome, last: Option<Addr>)
      requires Trees() && t in tables && 1 <= level <= 4 && AtLevel(ids[t], level)
      modifies this`tables, this`free, this`ids
      ensures Trees() && Updated(old(tables), old(ids), tables, ids, t, Index(level, va))
      ensures r.Done? || r.OutOfMemory? || r.HugePage?
      ensures r.Done? && last.Some? ==> last.value in tables && ids[last.value] == LastTable(old(ids)[t], level, va)
      ensures r.Done? && last.Some? ==> AtLevel(ids[last.value], 1)
      ensures r.Done? && last.Some? ==> Leads(tables, t, level, va, last.value)
      ensures r.Done? && last.None? ==> mapping.None? && Walk(tables, t, level, va) == None
      ensures r.HugePage? <==> OnHugePage(old(tables), t, level, va)
      ensures r.OutOfMemory? <==> mapping.Some? && old(|free| < Missing(tables, t, level, va))
      ensures mapping.None? ==> tables == old(tables)
      decreases level
    {
      if level == 1 {
        return Done, Some(t);
      }
      ghost var m, was := tables, ids;
      var next;
      r, next := Descend(t, level, va, mapping);
      if !r.Done? || next.None? {
        return r, None;
      }
      ghost var m1, is1 := tables, ids;
      r, last := FindLastTable(next.value, level - 1, va, mapping);
      UpdatesCompose(m, was, m1, is1, tables, ids, t, Index(level, va), next.value, Index(level - 1, va));
    }

    /** The last step of an update: the entry of the level-1 table is written. */
    method WriteLeaf(t1: Addr, root: Addr, va: nat, mapping: Option<Mapping>)
      requires Trees() && root in spaces && t1 in tables && ids[t1] == LastTable(RootId(root), 4, va)
      requires AtLevel(ids[t1], 1) && Leads(tables, root, 4, va, t1) && va % 0x1000 == 0
      modifies this`tables
      ensures Trees() && (old(Valid()) ==> Valid())
      ensures GetPage(tables, root, va) == mapping
      ensures mapping.Some? ==> EntryHolds(tables, root, va, mapping.value)
      ensures SameAccess(old(tables), tables, spaces)
      ensures forall s :: s in spaces ==> tables[s] == old(tables)[s]
      ensures forall r, va' :: r in spaces && Elsewhere(root, va, r, va') ==> GetPage(tables, r, va') == GetPage(old(tables), r, va')
    {
      ghost var m := tables;
      var e := LeafEntry(mapping);
      LeafReads(m, ids, t1, root, va, mapping);
      LeadsToEntry(m, ids, root, 4, va, t1, e);
      LeafKeepsAccess(m, ids, t1, Index(1, va), e, spaces);
      tables := tables[t1 := tables[t1][Index(1, va) := e]];
      LeafPlaced(m, ids, t1, Index(1, va), e);
      LeafElsewhere(m, ids, t1, root, va, e, spaces);
      SameRootsShare(m, tables, spaces, kernel);
    }

    /** Maps one page, or unmaps it. Afterwards the page translates as asked, and every other
        page, in this space and in every other, translates as before; when the update fails
        nothing at all translates differently, although new empty tables may have been added. */
    method SetPageInternal(root: Addr, va: nat, mapping: Option<Mapping>) returns (r: Outcome)
      requires Trees() && root in spaces
      modifies this`tables, this`free, this`ids
      ensures Trees() && (old(Valid()) ==> Valid())
      ensures r == Verdict(old(tables), root, va, mapping, |old(free)|)
      ensures r.Done? ==> GetPage(tables, root, va) == mapping
      ensures r.Done? && mapping.Some? ==> EntryHolds(tables, root, va, mapping.value)
      ensures SameAccess(old(tables), tables, spaces)
      ensures forall s :: s in spaces && (s != root || old(tables)[root][Index(4, va)].present) ==> tables[s] == old(tables)[s]
      ensures forall s, va' :: s in spaces && (!r.Done? || Elsewhere(root, va, s, va'))
                               ==> GetPage(tables, s, va') == GetPage(old(tables), s, va')
    {
      if va % 0x1000 != 0 {
        return BadAddress;
      }
      ghost var m, was := tables, ids;
      var found, t1 := FindLastTable(root, 4, va, mapping);
      UpdatedIs(m, was, tables, ids, root, Index(4, va));
      UpdateKeepsSharing(m, was, tables, spaces, kernel, root, Index(4, va));
      KeptInSpaces(m, was, tables, spaces);
      AccessInSpaces(m, was, tables, spaces);
      if !found.Done? {
        return found;
      }
      if mapping.Some? && mapping.value.frame % 0x1000 != 0 {
        return BadFrame;
      }
      if t1.Some? {
        WriteLeaf(t1.value, root, va, mapping);
      }
      return Done;
    }

    /** Maps a page in the lower half of a user space. Nothing changes in any other space, nor in
        the upper half of this one. */
    method SetPageUser(root: Addr, va: nat, mapping: Option<Mapping>) returns (r: Outcome)
      requires Trees() && root in spaces && Canonical(va)
      modifies this`tables, this`free, this`ids
      ensures Trees() && (old(Valid()) ==> Valid())
      ensures r == if root == kernel || va >= 0x8000_0000_0000 then WrongSpace
                   else Verdict(old(tables), root, va, mapping, |old(free)|)
      ensures r.Done? ==> GetPage(tables, root, va) == mapping
      ensures r.Done? && mapping.Some? ==> EntryHolds(tables, root, va, mapping.value)
      ensures SameAccess(old(tables), tables, spaces)
      ensures forall s :: s in spaces && s != root ==> tables[s] == old(tables)[s]
      ensures forall s, va' :: s in spaces && (!r.Done? || s != root || Index(4, va') >= 256 || PageNumber(va') != PageNumber(va))
                               ==> GetPage(tables, s, va') == GetPage(old(tables), s, va')
    {
      if root == kernel || va >= 0x8000_0000_0000 {
        return WrongSpace;
      }
      UpperHalfIndex(va);
      r := SetPageInternal(root, va, mapping);
      forall s, va' | s in spaces && (!r.Done? || s != root || Index(4, va') >= 256 || PageNumber(va') != PageNumber(va))
        ensures GetPage(tables, s, va') == GetPage(old(tables), s, va')
      {
        IndexesMakePage(va);
        IndexesMakePage(va');
        assert !r.Done? || Elsewhere(root, va, s, va');
      }
    }

    /** Maps a page of the upper half. Once the kernel space is initialised no top-level table is
        touched and every space sees the new mapping at once; every other page translates as before
        in every space. */
    method SetPageKernel(root: Addr, va: nat, mapping: Option<Mapping>) returns (r: Outcome)
      requires Trees() && root in spaces && Canonical(va)
      modifies this`tables, this`free, this`ids
      ensures Trees() && (old(Valid()) ==> Valid())
      ensures r == if root != kernel || va < UPPER_HALF then WrongSpace
                   else Verdict(old(tables), root, va, mapping, |old(free)|)
      ensures r.Done? ==> GetPage(tables, kernel, va) == mapping
      ensures r.Done? && mapping.Some? ==> EntryHolds(tables, kernel, va, mapping.value)
      ensures SameAccess(old(tables), tables, spaces)
      ensures r.Done? && old(Valid()) ==> forall s :: s in spaces ==> GetPage(tables, s, va) == mapping
      ensures forall s :: s in spaces && (s != kernel || old(Valid())) ==> tables[s] == old(tables)[s]
      ensures forall s, va' :: s in spaces && (!r.Done? || PageNumber(va') != PageNumber(va))
                               ==> GetPage(tables, s, va') == GetPage(old(tables), s, va')
    {
      if root != kernel || va < UPPER_HALF {
        return WrongSpace;
      }
      UpperHalfIndex(va);
      assert old(Valid()) ==> SharesUpperHalf(tables, kernel, kernel);
      r := SetPageInternal(root, va, mapping);
      if r.Done? && old(Valid()) {
        forall s | s in spaces
          ensures GetPage(tables, s, va) == mapping
        {
          UpperWalksAgree(tables, s, kernel, va);
        }
      }
      assert forall s, va' :: s in spaces && PageNumber(va') != PageNumber(va) ==> Elsewhere(root, va, s, va');
    }

    /** Takes frames for something else than tables. */
    method TakeFrames(n: nat) returns (ok: bool)
      requires Trees()
      modifies this`free
      ensures Trees() && (old(Valid()) ==> Valid())
      ensures ok <==> n <= |old(free)|
      ensures free == if ok then old(free)[..|old(free)| - n] else old(free)
    {
      ok := n <= |free|;
      if ok {
        free := free[..|free| - n];
      }
    }

    /** Creates an address space: an empty lower half, and the kernel's upper half. It takes two
        frames, the second of them for the first page of the space's own virtual allocator. */
    method NewSpace() returns (r: Option<Addr>)
      requires Trees()
      modifies this`tables, this`free, this`ids, this`spaces
      ensures Trees() && (old(Valid()) ==> Valid())
      ensures r.None? <==> |old(free)| < 2
      ensures r.None? ==> tables == old(tables) && free == old(free) && spaces == old(spaces)
      ensures r.Some? ==> r.value !in old(tables) && spaces == old(spaces) + {r.value} && |free| == |old(free)| - 2
      ensures r.Some? ==> forall i :: 0 <= i < ENTRIES ==> tables[r.value][i] == if i < 256 then UNUSED else old(tables)[kernel][i]
      ensures r.Some? ==> forall va :: GetPage(tables, r.value, va)
                                       == if Index(4, va) < 256 then None else GetPage(old(tables), kernel, va)
      ensures r.Some? ==> forall va :: Above(tables, r.value, 4, va) == if Index(4, va) < 256 then FULL else Above(old(tables), kernel, 4, va)
      ensures forall t :: t in old(tables) ==> t in tables && tables[t] == old(tables)[t]
      ensures SameTranslations(old(tables), tables, old(spaces)) && SameAccess(old(tables), tables, old(spaces))
    {
      if |free| < 2 {
        return None;
      }
      var n := free[|free| - 1];
      free := free[..|free| - 2];
      ghost var m, was, before := tables, ids, spaces;
      var l4 := UpperHalfOf(tables[kernel]);
      tables := tables[n := l4];
      ids := ids[n := RootId(n)];
      spaces := spaces + {n};
      NewSpacePlaced(m, was, kernel, n, l4);
      NewSpaceShares(m, before, kernel, n, l4);
      NewSpaceWalks(m, was, kernel, n, l4, before);
      NewSpaceAccess(m, was, kernel, n, l4, before);
      return Some(n);
    }

    /** Prepares the boot page tables to be the kernel's: the lower half is dropped, and every
        unused upper entry is given a table, so that later kernel mappings need not touch the
        top level. This completes the upper half exactly when no upper entry was neither unused
        nor present, and panics exactly when there are fewer frames than unused upper entries. */
    method InitKernelSpace() returns (ok: bool)
      requires Trees() && spaces == {kernel}
      modifies this`tables, this`free, this`ids
      ensures Trees()
      ensures ok <==> UnusedUpper(old(tables)[kernel], ENTRIES) <= |old(free)|
      ensures ok ==> (Valid() <==> NoHalfMadeEntries(old(tables)[kernel]))
      ensures ok ==> |free| == |old(free)| - UnusedUpper(old(tables)[kernel], ENTRIES)
      ensures ok ==> forall j :: 256 <= j < ENTRIES ==> tables[kernel][j].present == (old(tables)[kernel][j].present || old(tables)[kernel][j] == UNUSED)
      ensures ok ==> forall j :: 256 <= j < ENTRIES ==> if old(tables)[kernel][j] == UNUSED then KernelOnly(tables[kernel][j])
                                                        else tables[kernel][j] == old(tables)[kernel][j]
      ensures forall va :: GetPage(tables, kernel, va) == if Index(4, va) < 256 then None else GetPage(old(tables), kernel, va)
    {
      ghost var l4 := tables[kernel];
      DropLowerHalf();
      ghost var m := tables;
      ok := true;
      for i := 256 to ENTRIES
        invariant Trees() && |free| == |old(free)| - UnusedUpper(l4, i)
        invariant forall j :: i <= j < ENTRIES ==> tables[kernel][j] == l4[j]
        invariant forall j :: 256 <= j < i ==> if l4[j] == UNUSED then KernelOnly(tables[kernel][j]) else tables[kernel][j] == l4[j]
        invariant SameTranslations(m, tables, spaces)
      {
        UnusedUpperGrows(l4, i + 1);
        if tables[kernel][i] == UNUSED {
          if free == [] {
            return false;
          }
          FillKernelEntry(i);
        }
      }
      assert Valid() <==> SharesUpperHalf(tables, kernel, kernel);
    }

    method FillKernelEntry(i: nat)
      requires Trees() && spaces == {kernel} && 256 <= i < ENTRIES && tables[kernel][i] == UNUSED && free != []
      modifies this`tables, this`free, this`ids
      ensures Trees() && SameTranslations(old(tables), tables, spaces)
      ensures KernelOnly(tables[kernel][i]) && |free| == |old(free)| - 1
      ensures forall j :: 0 <= j < ENTRIES && j != i ==> tables[kernel][j] == old(tables)[kernel][j]
    {
      ghost var m, was := tables, ids;
      AddTable(kernel, 4, i, false);
      forall s, v | s in spaces
        ensures GetPage(tables, s, v) == GetPage(m, s, v)
      {
        assert AtLevel(was[s], 4);
        assert Walk(tables, s, 4, v) == Walk(m, s, 4, v);
      }
    }

    method DropLowerHalf()
      requires Trees() && spaces == {kernel}
      modifies this`tables
      ensures Trees()
      ensures forall j :: 256 <= j < ENTRIES ==> tables[kernel][j] == old(tables)[kernel][j]
      ensures forall va :: GetPage(tables, kernel, va) == if Index(4, va) < 256 then None else GetPage(old(tables), kernel, va)
    {
      ghost var m := tables;
      var l4 := UpperHalfOf(tables[kernel]);
      tables := tables[kernel := l4];
      forall t, i | t in tables && 0 <= i < ENTRIES
        ensures EntryPlaced(tables, ids, t, i)
      {
        assert EntryPlaced(m, ids, t, i);
      }
      forall va
        ensures GetPage(tables, kernel, va) == if Index(4, va) < 256 then None else GetPage(m, kernel, va)
      {
        RootRewritten(m, ids, kernel, l4, va);
      }
    }
  }

  /** Below the top level, a walk does not meet the top-level table again. */
  lemma {:induction false} BelowRoot(m: Memory, ids: map<Addr, TableId>, root: Addr, l4: Table, t: Addr, level: nat, va: nat)
    requires WellPlaced(m, ids) && root in m && ids[root].path == [] && t in m && 1 <= level <= 3 && AtLevel(ids[t], level)
    ensures Walk(m[root := l4], t, level, va) == Walk(m, t, level, va)
    decreases level
  {
    var e := m[t][Index(level, va)];
    assert EntryPlaced(m, ids, t, Index(level, va));
    if e.present && !IsLeaf(level, e) {
      BelowRoot(m, ids, root, l4, e.addr, level - 1, va);
    }
  }

  lemma RootRewritten(m: Memory, ids: map<Addr, TableId>, root: Addr, l4: Table, va: nat)
    requires WellPlaced(m, ids) && root in m && ids[root] == RootId(root)
    requires forall i :: 0 <= i < ENTRIES ==> l4[i] == if i < 256 then UNUSED else m[root][i]
    ensures GetPage(m[root := l4], root, va) == if Index(4, va) < 256 then None else GetPage(m, root, va)
  {
    var e := m[root][Index(4, va)];
    assert EntryPlaced(m, ids, root, Index(4, va));
    if Index(4, va) >= 256 && e.present {
      BelowRoot(m, ids, root, l4, e.addr, 3, va);
    }
  }

  lemma NewSpacePlaced(m: Memory, ids: map<Addr, TableId>, kernel: Addr, n: Addr, l4: Table)
    requires WellPlaced(m, ids) && kernel in m && ids[kernel] == RootId(kernel) && n !in m
    requires forall i :: 0 <= i < ENTRIES ==> l4[i] == if i < 256 then UNUSED else m[kernel][i]
    ensures WellPlaced(m[n := l4], ids[n := RootId(n)])
  {
    var m', ids' := m[n := l4], ids[n := RootId(n)];
    forall t, i | t in m' && 0 <= i < ENTRIES
      ensures t in ids' && |ids'[t].path| <= 3 && EntryPlaced(m', ids', t, i)
    {
      assert EntryPlaced(m, ids, if t == n then kernel else t, i);
    }
  }

  /** A table that nothing leads to does not matter to any walk. */
  lemma {:induction false} UnreachedTable(m: Memory, ids: map<Addr, TableId>, n: Addr, table: Table, t: Addr, level: nat, va: nat)
    requires WellPlaced(m, ids) && n !in m && t in m && level >= 1 && AtLevel(ids[t], level)
    ensures Walk(m[n := table], t, level, va) == Walk(m, t, level, va)
    decreases level
  {
    var e := m[t][Index(level, va)];
    assert EntryPlaced(m, ids, t, Index(level, va));
    if e.present && !IsLeaf(level, e) {
      UnreachedTable(m, ids, n, table, e.addr, level - 1, va);
    }
  }

  lemma NewSpaceWalks(m: Memory, ids: map<Addr, TableId>, kernel: Addr, n: Addr, l4: Table, spaces: set<Addr>)
    requires WellPlaced(m, ids) && kernel in m && ids[kernel] == RootId(kernel) && n !in m
    requires forall r :: r in spaces ==> r in m && ids[r] == RootId(r)
    requires forall i :: 0 <= i < ENTRIES ==> l4[i] == if i < 256 then UNUSED else m[kernel][i]
    ensures SameTranslations(m, m[n := l4], spaces)
    ensures forall va :: GetPage(m[n := l4], n, va) == if Index(4, va) < 256 then None else GetPage(m, kernel, va)
  {
    forall r, va | r in spaces
      ensures GetPage(m[n := l4], r, va) == GetPage(m, r, va)
    {
      UnreachedTable(m, ids, n, l4, r, 4, va);
    }
    forall va
      ensures GetPage(m[n := l4], n, va) == if Index(4, va) < 256 then None else GetPage(m, kernel, va)
    {
      UnreachedTable(m, ids, n, l4, kernel, 4, va);
    }
  }

  lemma {:induction false} UnreachedAccess(m: Memory, ids: map<Addr, TableId>, n: Addr, table: Table, t: Addr, level: nat, va: nat)
    requires WellPlaced(m, ids) && n !in m && t in m && level >= 1 && AtLevel(ids[t], level)
    ensures Above(m[n := table], t, level, va) == Above(m, t, level, va)
    decreases level
  {
    var e := m[t][Index(level, va)];
    assert EntryPlaced(m, ids, t, Index(level, va));
    if e.present && !IsLeaf(level, e) {
      UnreachedAccess(m, ids, n, table, e.addr, level - 1, va);
    }
  }

  lemma NewSpaceAccess(m: Memory, ids: map<Addr, TableId>, kernel: Addr, n: Addr, l4: Table, spaces: set<Addr>)
    requires WellPlaced(m, ids) && kernel in m && ids[kernel] == RootId(kernel) && n !in m
    requires forall r :: r in spaces ==> r in m && ids[r] == RootId(r)
    requires forall i :: 0 <= i < ENTRIES ==> l4[i] == if i < 256 then UNUSED else m[kernel][i]
    ensures SameAccess(m, m[n := l4], spaces)
    ensures forall va :: Above(m[n := l4], n, 4, va) == if Index(4, va) < 256 then FULL else Above(m, kernel, 4, va)
  {
    forall r, va | r in spaces
      ensures Above(m[n := l4], r, 4, va) == Above(m, r, 4, va)
    {
      UnreachedAccess(m, ids, n, l4, r, 4, va);
    }
    forall va
      ensures Above(m[n := l4], n, 4, va) == if Index(4, va) < 256 then FULL else Above(m, kernel, 4, va)
    {
      NewRootAccess(m, ids, kernel, n, l4, va);
    }
  }

  lemma NewRootAccess(m: Memory, ids: map<Addr, TableId>, kernel: Addr, n: Addr, l4: Table, va: nat)
    requires WellPlaced(m, ids) && kernel in m && ids[kernel] == RootId(kernel) && n !in m
    requires forall i :: 0 <= i < ENTRIES ==> l4[i] == if i < 256 then UNUSED else m[kernel][i]
    ensures Above(m[n := l4], n, 4, va) == if Index(4, va) < 256 then FULL else Above(m, kernel, 4, va)
  {
    var e := m[kernel][Index(4, va)];
    assert EntryPlaced(m, ids, kernel, Index(4, va));
    if Index(4, va) >= 256 && e.present {
      UnreachedAccess(m, ids, n, l4, e.addr, 3, va);
    }
  }

  lemma NewSpaceShares(m: Memory, spaces: set<Addr>, kernel: Addr, n: Addr, l4: Table)
    requires kernel in spaces && n !in m && (forall r :: r in spaces ==> r in m)
    requires forall i :: 0 <= i < ENTRIES ==> l4[i] == if i < 256 then UNUSED else m[kernel][i]
    ensures AllShare(m, spaces, kernel) ==> AllShare(m[n := l4], spaces + {n}, kernel)
  {
    var m' := m[n := l4];
    if AllShare(m, spaces, kernel) {
      assert SharesUpperHalf(m, kernel, kernel);
      forall s | s in spaces + {n}
        ensures SharesUpperHalf(m', s, kernel)
      {
        assert s in spaces ==> SharesUpperHalf(m, s, kernel);
      }
    }
  }

  lemma SameRootsShare(m: Memory, m': Memory, spaces: set<Addr>, kernel: Addr)
    requires kernel in spaces && (forall s :: s in spaces ==> s in m && s in m' && m'[s] == m[s])
    ensures AllShare(m, spaces, kernel) ==> AllShare(m', spaces, kernel)
  {
    if AllShare(m, spaces, kernel) {
      forall s | s in spaces
        ensures SharesUpperHalf(m', s, kernel)
      {
        assert SharesUpperHalf(m, s, kernel);
      }
    }
  }

  lemma AccessInSpaces(m: Memory, ids: map<Addr, TableId>, m': Memory, spaces: set<Addr>)
    requires KeepsAccess(m, ids, m') && (forall s :: s in spaces ==> s in m && s in ids && ids[s] == RootId(s))
    ensures SameAccess(m, m', spaces)
  {
    forall s, va | s in spaces
      ensures Above(m', s, 4, va) == Above(m, s, 4, va)
    {
      assert AtLevel(ids[s], 4);
    }
  }

  lemma KeptInSpaces(m: Memory, ids: map<Addr, TableId>, m': Memory, spaces: set<Addr>)
    requires KeepsWalks(m, ids, m') && (forall s :: s in spaces ==> s in m && s in ids && ids[s] == RootId(s))
    ensures SameTranslations(m, m', spaces)
  {
    forall s, va | s in spaces
      ensures GetPage(m', s, va) == GetPage(m, s, va)
    {
      assert AtLevel(ids[s], 4);
      assert Walk(m', s, 4, va) == Walk(m, s, 4, va);
    }
  }

  /** An update below a table that hangs under entry `i` of `t` is one below that entry. */
  lemma DeeperKeepsEntry(m: Memory, ids: map<Addr, TableId>, m1: Memory, ids1: map<Addr, TableId>, m2: Memory,
                         t: Addr, i: nat, next: Addr, i1: nat)
    requires Grows(m, ids, m1, ids1) && t in m && t in ids && t in m1 && t in ids1 && next in ids1
    requires |ids1[next].path| > |ids1[t].path|
    requires forall u :: u in m ==> u in ids
    requires OnlyBelow(m, ids, m1, t, i) && OnlyBelow(m1, ids1, m2, next, i1)
    ensures OnlyBelow(m, ids, m2, t, i) && m2[t] == m1[t]
  {
  }

  /** The count only grows. */
  lemma {:induction false} UnusedUpperGrows(l4: Table, n: nat)
    requires n <= ENTRIES
    ensures UnusedUpper(l4, n) <= UnusedUpper(l4, ENTRIES)
    decreases ENTRIES - n
  {
    if n < ENTRIES {
      UnusedUpperGrows(l4, n + 1);
    }
  }

  lemma NewTableKeepsAll(m: Memory, ids: map<Addr, TableId>, m': Memory, t0: Addr, i0: nat, n: Addr, user: bool)
    requires WellPlaced(m, ids) && t0 in m && i0 < ENTRIES && !m[t0][i0].present && n !in m && n != t0
    requires !AtLevel(ids[t0], 1)
    requires m' == m[n := EmptyTable()][t0 := m[t0][i0 := TableEntry(n, user)]]
    ensures KeepsWalks(m, ids, m')
  {
    forall t, level, va | t in m && t in ids && level >= 1 && AtLevel(ids[t], level)
      ensures Walk(m', t, level, va) == Walk(m, t, level, va)
    {
      NewTableKeepsWalks(m, ids, m', t0, i0, n, TableEntry(n, user), t, level, va);
    }
  }

  /** An entry for a table that is made while mapping takes no access away. */
  lemma NewTableIsOpen(m: Memory, ids: map<Addr, TableId>, m': Memory, t0: Addr, i0: nat, n: Addr)
    requires WellPlaced(m, ids) && t0 in m && i0 < ENTRIES && !m[t0][i0].present && n !in m && n != t0
    requires !AtLevel(ids[t0], 1)
    requires m' == m[n := EmptyTable()][t0 := m[t0][i0 := TableEntry(n, true)]]
    ensures KeepsAccess(m, ids, m')
  {
    forall t, level, va | t in m && t in ids && level >= 1 && AtLevel(ids[t], level)
      ensures Above(m', t, level, va) == Above(m, t, level, va)
    {
      NewTableKeepsAccess(m, ids, m', t0, i0, n, TableEntry(n, true), t, level, va);
    }
  }

  lemma NewTablePlaced(m: Memory, ids: map<Addr, TableId>, m': Memory, ids': map<Addr, TableId>, t0: Addr, i0: nat, n: Addr, user: bool)
    requires WellPlaced(m, ids) && t0 in m && i0 < ENTRIES && n !in m && n != t0
    requires |ids[t0].path| <= 2
    requires m' == m[n := EmptyTable()][t0 := m[t0][i0 := TableEntry(n, user)]]
    requires ids' == ids[n := Child(ids[t0], i0)]
    ensures WellPlaced(m', ids')
  {
    forall t, i | t in m' && 0 <= i < ENTRIES
      ensures t in ids' && |ids'[t].path| <= 3 && EntryPlaced(m', ids', t, i)
    {
      if t != n {
        assert EntryPlaced(m, ids, t, i);
      }
    }
  }
}
