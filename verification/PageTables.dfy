/** Four-level page tables (section 4.5 of the Intel SDM, Volume 3A), in a memory that maps the
    address of a frame to the table it holds.
 */
module PageTables {
  import opened Basics

  type Addr = nat

  const ENTRIES: nat := 512

  /** A table entry: the frame it names and its flag bits; `other` stands for the bits the code
      does not interpret. */
  datatype Entry = Entry(addr: Addr, present: bool, writable: bool, user: bool, huge: bool, noExecute: bool, other: nat)

  /** The all-zero entry. */
  const UNUSED: Entry := Entry(0, false, false, false, false, false, 0)

  datatype PageFlags = PageFlags(user: bool, writeable: bool, executable: bool)

  datatype Mapping = Mapping(frame: Addr, flags: PageFlags)

  function ToGenericFlags(e: Entry): PageFlags {
    PageFlags(e.user, e.writable, !e.noExecute)
  }

  function ToX86Entry(frame: Addr, f: PageFlags): Entry {
    Entry(frame, true, f.writeable, f.user, false, !f.executable, 0)
  }

  /** An entry for a new intermediate table; those made for the kernel at start-up are not open
      to user code. */
  function TableEntry(frame: Addr, user: bool): Entry {
    Entry(frame, true, true, user, false, false, 0)
  }

  type Table = t: seq<Entry> | |t| == ENTRIES witness seq(ENTRIES, _ => UNUSED)

  function EmptyTable(): (t: Table)
    ensures forall i :: 0 <= i < ENTRIES ==> t[i] == UNUSED
  {
    seq(ENTRIES, _ => UNUSED)
  }

  type Memory = map<Addr, Table>

  /** Bytes mapped by one entry of a table at `level`. */
  function Size(level: nat): (n: nat)
    ensures n > 0 && n % 0x1000 == 0
  {
    match level
    case 1 => 0x1000
    case 2 => 0x20_0000
    case 3 => 0x4000_0000
    case _ => 0x80_0000_0000
  }

  /** The entry of a table at `level` that an address selects. */
  function Index(level: nat, va: nat): (i: nat)
    ensures i < ENTRIES
  {
    (va / Size(level)) % ENTRIES
  }

  predicate Canonical(va: nat) {
    va < 0x8000_0000_0000 || 0xffff_8000_0000_0000 <= va < 0x1_0000_0000_0000_0000
  }

  const UPPER_HALF: nat := 0xffff_8000_0000_0000

  /** Whether the walk stops at a present entry of a table at `level`. The code looks at the
      huge-page bit at levels 2 and 3 only. */
  predicate IsLeaf(level: nat, e: Entry) {
    level <= 1 || (level < 4 && e.huge)
  }

  /** The walk, from a table at `level`. */
  function Walk(m: Memory, t: Addr, level: nat, va: nat): Option<Mapping>
    decreases level
  {
    if t !in m then None
    else
      var e := m[t][Index(level, va)];
      if !e.present then None
      else if IsLeaf(level, e) then Some(Mapping(e.addr + va % Size(level), ToGenericFlags(e)))
      else Walk(m, e.addr, level - 1, va)
  }

  function GetPage(m: Memory, root: Addr, va: nat): Option<Mapping> {
    Walk(m, root, 4, va)
  }

  // ---- what the bits of the entries mean ----

  /** Where the walk for an address ends: at an entry that is absent or a leaf. */
  datatype Stop = Stop(level: nat, entry: Entry)

  function StopOf(m: Memory, t: Addr, level: nat, va: nat): Option<Stop>
    decreases level
  {
    if t !in m then None
    else
      var e := m[t][Index(level, va)];
      if !e.present || IsLeaf(level, e) then Some(Stop(level, e)) else StopOf(m, e.addr, level - 1, va)
  }

  /** The walk for an address from the top ends at entry `e`. */
  predicate StopsAt(m: Memory, root: Addr, va: nat, e: Entry) {
    var s := StopOf(m, root, 4, va);
    s.Some? && s.value.entry == e
  }

  /** A page is translated by the entry where its walk ends, if that is present, and has the flags
      of its bits. */
  lemma {:induction false} WalkReads(m: Memory, t: Addr, level: nat, va: nat)
    ensures var w, s := Walk(m, t, level, va), StopOf(m, t, level, va);
            && (w.Some? <==> s.Some? && s.value.entry.present)
            && (w.Some? ==> var e := s.value.entry;
                            && w.value.frame == e.addr + va % Size(s.value.level)
                            && w.value.flags.user == e.user && w.value.flags.writeable == e.writable
                            && w.value.flags.executable == !e.noExecute)
    decreases level
  {
    if t in m {
      var e := m[t][Index(level, va)];
      if e.present && !IsLeaf(level, e) {
        WalkReads(m, e.addr, level - 1, va);
      }
    }
  }

  /** The entry for an address in a table that is looked up by the nine bits above those below `size`. */
  function Field(m: Memory, t: Addr, va: nat, size: nat): Entry
    requires size > 0
  {
    if t in m then m[t][va / size % 512] else UNUSED
  }

  /** The page of `size` bytes that an entry maps, at the offset of the address. */
  function MappedTo(e: Entry, va: nat, size: nat): Option<Mapping>
    requires size > 0
  {
    Some(Mapping(e.addr + va % size, PageFlags(e.user, e.writable, !e.noExecute)))
  }

  /** The translation written out: four tables, with pages of a gigabyte and of two megabytes on
      the way. */
  function Translation(m: Memory, root: Addr, va: nat): Option<Mapping> {
    var e4 := Field(m, root, va, 0x80_0000_0000);
    var e3 := Field(m, e4.addr, va, 0x4000_0000);
    var e2 := Field(m, e3.addr, va, 0x20_0000);
    var e1 := Field(m, e2.addr, va, 0x1000);
    if !e4.present || !e3.present then None
    else if e3.huge then MappedTo(e3, va, 0x4000_0000)
    else if !e2.present then None
    else if e2.huge then MappedTo(e2, va, 0x20_0000)
    else if !e1.present then None
    else MappedTo(e1, va, 0x1000)
  }

  /** The walk is that translation. */
  lemma WalkIsTranslation(m: Memory, root: Addr, va: nat)
    ensures GetPage(m, root, va) == Translation(m, root, va)
  {
    if root in m {
      var e4 := m[root][Index(4, va)];
      WalkLow(m, e4.addr, va);
    }
  }

  lemma WalkLow(m: Memory, t: Addr, va: nat)
    ensures Walk(m, t, 3, va) == var e3 := Field(m, t, va, 0x4000_0000);
                                 var e2 := Field(m, e3.addr, va, 0x20_0000);
                                 var e1 := Field(m, e2.addr, va, 0x1000);
                                 if !e3.present then None
                                 else if e3.huge then MappedTo(e3, va, 0x4000_0000)
                                 else if !e2.present then None
                                 else if e2.huge then MappedTo(e2, va, 0x20_0000)
                                 else if !e1.present then None
                                 else MappedTo(e1, va, 0x1000)
  {
  }

  /** What the processor lets code do with a page (section 4.6 of the same volume): what every entry
      on the walk lets it do. */
  datatype Access = Access(user: bool, write: bool, execute: bool)

  const FULL: Access := Access(true, true, true)

  function Both(a: Access, b: Access): Access {
    Access(a.user && b.user, a.write && b.write, a.execute && b.execute)
  }

  function AccessOf(e: Entry): Access {
    Access(e.user, e.writable, !e.noExecute)
  }

  /** What the entries above the last one let it do. */
  function Above(m: Memory, t: Addr, level: nat, va: nat): Access
    decreases level
  {
    if t !in m then FULL
    else
      var e := m[t][Index(level, va)];
      if !e.present || IsLeaf(level, e) then FULL else Both(AccessOf(e), Above(m, e.addr, level - 1, va))
  }

  function Permitted(m: Memory, root: Addr, va: nat): Option<Access> {
    match StopOf(m, root, 4, va)
    case None => None
    case Some(s) => if s.entry.present then Some(Both(Above(m, root, 4, va), AccessOf(s.entry))) else None
  }

  // ---- which table is which ----

  /** The place of a table: the address space whose lower half it belongs to, or none for the
      upper half that all spaces share, and the entries that lead to it from the top. */
  datatype TableId = TableId(space: Option<Addr>, path: seq<nat>)

  function RootId(root: Addr): TableId {
    TableId(Some(root), [])
  }

  function Child(id: TableId, i: nat): TableId {
    if id.path == [] && i >= 256 then TableId(None, [i]) else TableId(id.space, id.path + [i])
  }

  predicate AtLevel(id: TableId, level: nat) {
    |id.path| + level == 4
  }

  /** Every table has one place, and a present entry that is no leaf leads to the table placed
      under it. A table is therefore reached along one path only. */
  ghost predicate WellPlaced(m: Memory, ids: map<Addr, TableId>) {
    && (forall t :: t in m ==> t in ids && |ids[t].path| <= 3)
    && (forall t, i :: t in m && 0 <= i < ENTRIES ==> EntryPlaced(m, ids, t, i))
  }

  ghost predicate EntryPlaced(m: Memory, ids: map<Addr, TableId>, t: Addr, i: nat)
    requires t in m && i < ENTRIES && t in ids && |ids[t].path| <= 3
  {
    var e := m[t][i];
    e.present && !IsLeaf(4 - |ids[t].path|, e) ==> e.addr in m && e.addr in ids && ids[e.addr] == Child(ids[t], i)
  }

  /** The place of the last table on the walk for `va` from a table placed at `id`. */
  function LastTable(id: TableId, level: nat, va: nat): TableId
    decreases level
  {
    if level <= 1 then id else LastTable(Child(id, Index(level, va)), level - 1, va)
  }

  // ---- what an update changes ----

  /** Hanging an empty table under an absent entry changes no translation. */
  lemma {:induction false} NewTableKeepsWalks(m: Memory, ids: map<Addr, TableId>, m': Memory, t0: Addr, i0: nat, n: Addr, e: Entry,
                                              t: Addr, level: nat, va: nat)
    requires t0 in m && i0 < ENTRIES && !m[t0][i0].present && n !in m && n != t0
    requires e.addr == n && !e.huge && t0 in ids && !AtLevel(ids[t0], 1)
    requires m' == m[n := EmptyTable()][t0 := m[t0][i0 := e]]
    requires WellPlaced(m, ids) && t in m && level >= 1 && AtLevel(ids[t], level)
    ensures Walk(m', t, level, va) == Walk(m, t, level, va)
    decreases level
  {
    var i := Index(level, va);
    var f := m[t][i];
    assert EntryPlaced(m, ids, t, i);
    if t == t0 && i == i0 {
      assert Walk(m', n, level - 1, va) == None;
    } else if f.present && !IsLeaf(level, f) {
      NewTableKeepsWalks(m, ids, m', t0, i0, n, e, f.addr, level - 1, va);
    }
  }

  /** A new table with full access takes no access away. */
  lemma {:induction false} NewTableKeepsAccess(m: Memory, ids: map<Addr, TableId>, m': Memory, t0: Addr, i0: nat, n: Addr, e: Entry,
                                               t: Addr, level: nat, va: nat)
    requires t0 in m && i0 < ENTRIES && !m[t0][i0].present && n !in m && n != t0
    requires e.addr == n && !e.huge && e.user && e.writable && !e.noExecute && t0 in ids && !AtLevel(ids[t0], 1)
    requires m' == m[n := EmptyTable()][t0 := m[t0][i0 := e]]
    requires WellPlaced(m, ids) && t in m && level >= 1 && AtLevel(ids[t], level)
    ensures Above(m', t, level, va) == Above(m, t, level, va)
    decreases level
  {
    var i := Index(level, va);
    var f := m[t][i];
    assert EntryPlaced(m, ids, t, i);
    if t == t0 && i == i0 {
      assert Above(m', n, level - 1, va) == FULL;
    } else if f.present && !IsLeaf(level, f) {
      NewTableKeepsAccess(m, ids, m', t0, i0, n, e, f.addr, level - 1, va);
    }
  }

  /** Nor does an entry of a last-level table, for which its own bits stand alone. */
  lemma {:induction false} LeafUpdateKeepsAccess(m: Memory, ids: map<Addr, TableId>, t1: Addr, i1: nat, e: Entry, t: Addr, level: nat, va: nat)
    requires WellPlaced(m, ids) && t1 in m && i1 < ENTRIES && AtLevel(ids[t1], 1)
    requires t in m && level >= 1 && AtLevel(ids[t], level)
    ensures Above(m[t1 := m[t1][i1 := e]], t, level, va) == Above(m, t, level, va)
    decreases level
  {
    var i := Index(level, va);
    var f := m[t][i];
    assert EntryPlaced(m, ids, t, i);
    if level > 1 && f.present && !IsLeaf(level, f) {
      LeafUpdateKeepsAccess(m, ids, t1, i1, e, f.addr, level - 1, va);
    }
  }

  /** Rewriting entry `i1` of the last-level table `t1` changes no walk that ends in another
      table or another entry. */
  lemma {:induction false} LeafUpdateKeepsWalks(m: Memory, ids: map<Addr, TableId>, t1: Addr, i1: nat, e: Entry,
                                                t: Addr, level: nat, va: nat)
    requires WellPlaced(m, ids) && t1 in m && i1 < ENTRIES && AtLevel(ids[t1], 1)
    requires t in m && level >= 1 && AtLevel(ids[t], level)
    requires LastTable(ids[t], level, va) != ids[t1] || Index(1, va) != i1
    ensures Walk(m[t1 := m[t1][i1 := e]], t, level, va) == Walk(m, t, level, va)
    decreases level
  {
    var i := Index(level, va);
    var f := m[t][i];
    assert EntryPlaced(m, ids, t, i);
    if level > 1 && f.present && !IsLeaf(level, f) {
      LeafUpdateKeepsWalks(m, ids, t1, i1, e, f.addr, level - 1, va);
    }
  }

  /** The page an address lies on, as the number made of its four table indexes. */
  function PageNumber(va: nat): nat {
    (va / 0x1000) % 0x10_0000_0000
  }

  lemma DivideTwice(va: nat)
    ensures va / 0x20_0000 == va / 0x1000 / 512
    ensures va / 0x4000_0000 == va / 0x20_0000 / 512
    ensures va / 0x80_0000_0000 == va / 0x4000_0000 / 512
  {
  }

  lemma FourDigits(p: nat)
    ensures var a, b, c := p / 512, p / 512 / 512, p / 512 / 512 / 512;
            p % 0x10_0000_0000 == (((c % 512) * 512 + b % 512) * 512 + a % 512) * 512 + p % 512
  {
    var a, b, c, d := p / 512, p / 512 / 512, p / 512 / 512 / 512, p / 512 / 512 / 512 / 512;
    var low := (((c % 512) * 512 + b % 512) * 512 + a % 512) * 512 + p % 512;
    assert c == 512 * d + c % 512 && b == 512 * c + b % 512 && a == 512 * b + a % 512;
    assert p == 0x10_0000_0000 * d + low;
    assert low < 0x10_0000_0000;
  }

  lemma IndexesMakePage(va: nat)
    ensures PageNumber(va) == ((Index(4, va) * 512 + Index(3, va)) * 512 + Index(2, va)) * 512 + Index(1, va)
  {
    DivideTwice(va);
    FourDigits(va / 0x1000);
  }

  /** The page and the half of the address decide the last table and the entry in it. */
  lemma SameLastEntry(root: Addr, va: nat, root': Addr, va': nat)
    requires LastTable(RootId(root), 4, va) == LastTable(RootId(root'), 4, va') && Index(1, va) == Index(1, va')
    ensures PageNumber(va) == PageNumber(va')
    ensures root == root' || Index(4, va) >= 256
  {
    LastTablePath(root, va);
    LastTablePath(root', va');
    IndexesMakePage(va);
    IndexesMakePage(va');
  }

  lemma LastTablePath(root: Addr, va: nat)
    ensures LastTable(RootId(root), 4, va)
         == TableId(if Index(4, va) >= 256 then None else Some(root), [Index(4, va), Index(3, va), Index(2, va)])
  {
    var id3 := Child(RootId(root), Index(4, va));
    assert id3.path == [Index(4, va)];
    var id2 := Child(id3, Index(3, va));
    assert id2.path == [Index(4, va), Index(3, va)];
    var id1 := Child(id2, Index(2, va));
    assert id1.path == [Index(4, va), Index(3, va), Index(2, va)];
    assert LastTable(id3, 3, va) == LastTable(id2, 2, va) == LastTable(id1, 1, va) == id1;
  }
}
