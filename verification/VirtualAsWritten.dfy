/** The virtual allocator exactly as it is coded, with the back link that a split leaves stale, on
    plain values: freeing and allocating as functions of the heap of pages. A run of frees reaches
    a stale link, and calls after it give wrong answers.
 */
module VirtualAsWritten {
  import opened Basics
  import opened Regions
  import opened AllocPages
  import opened VirtualAlloc

  /** The pages, and the frame that will hold the next new one. */
  datatype Heap = Heap(head: Ptr, mem: Memory, spare: Ptr)

  const EMPTY: Heap := Heap(NULL, map[], 1)

  ghost predicate Shaped(m: Memory) {
    forall p :: p in m ==> m[p].Shape()
  }

  // ---- freeing; nothing comes out when the code panics ----

  /** The region at the front, or at the back, of a page; asking an empty page panics. */
  function FrontOf(m: Memory, p: Ptr): Option<Region> {
    if p in m && m[p].Live() != [] then Some(m[p].Live()[0]) else None
  }

  function BackOf(m: Memory, p: Ptr): Option<Region> {
    if p in m && m[p].Live() != [] then Some(m[p].Live()[|m[p].Live()| - 1]) else None
  }

  /** The walk along the chain, which is no longer than there are pages. */
  function FindPage(m: Memory, p: Ptr, r: Region, steps: nat): Option<Ptr>
    decreases steps
  {
    if p !in m || steps == 0 then None
    else if m[p].next == NULL then Some(p)
    else
      match FrontOf(m, m[p].next)
      case None => None
      case Some(x) => if r.end >= x.start then FindPage(m, m[p].next, r, steps - 1) else Some(p)
  }

  /** The first region of a sorted list that ends at or after `a`. */
  function FirstEnd(rs: seq<Region>, a: int): (i: nat)
    ensures i <= |rs|
  {
    if rs == [] || rs[0].end >= a then 0 else 1 + FirstEnd(rs[1..], a)
  }

  function SearchEnds(rs: seq<Region>, a: int): (s: Search)
    ensures if s.Found? then s.i < |rs| else s.i <= |rs|
  {
    var i := FirstEnd(rs, a);
    if i < |rs| && rs[i].end == a then Found(i) else Missing(i)
  }

  lemma {:induction false} FirstEndIs(rs: seq<Region>, a: int, i: nat)
    requires i <= |rs| && (forall j :: 0 <= j < i ==> rs[j].end < a) && (i < |rs| ==> rs[i].end >= a)
    ensures FirstEnd(rs, a) == i
  {
    if i > 0 {
      assert rs[0].end < a;
      FirstEndIs(rs[1..], a, i - 1);
    }
  }

  /** On ascending ends it is what the binary search of the code must come to. */
  lemma SearchIsUnique(rs: seq<Region>, a: int, s: Search)
    requires forall i, j :: 0 <= i < j < |rs| ==> rs[i].end < rs[j].end
    requires s.Found? ==> s.i < |rs| && rs[s.i].end == a
    requires s.Missing? ==> s.i <= |rs| && (forall i :: 0 <= i < s.i ==> rs[i].end < a) && forall i :: s.i <= i < |rs| ==> a < rs[i].end
    ensures s == SearchEnds(rs, a)
  {
    FirstEndIs(rs, a, s.i);
  }

  /** Whether the check before freeing finds an overlap: with the regions beside the position, or
      with the edges of the pages that the links name. */
  function OverlapSeen(m: Memory, page: Page, s: Search, r: Region): Option<bool>
    requires Pos(s) <= |page.Live()|
  {
    var live := page.Live();
    var before := if Pos(s) > 0 then Some(live[Pos(s) - 1]) else if page.prev == NULL then None else BackOf(m, page.prev);
    var after := if Pos(s) < |live| then Some(live[Pos(s)]) else if page.next == NULL then None else FrontOf(m, page.next);
    if Pos(s) == 0 && page.prev != NULL && before.None? then None
    else if Pos(s) == |live| && page.next != NULL && after.None? then None
    else Some((before.Some? && r.start < before.value.end) || (after.Some? && r.end > after.value.start))
  }

  /** The split of a full page, its three targets and the link that it forgets. */
  function Split(h: Heap, p: Ptr): (h': Heap)
    requires Shaped(h.mem) && p in h.mem && h.mem[p].len == CAPACITY
    ensures Shaped(h'.mem)
  {
    var m, page := h.mem, h.mem[p];
    var front, back := page.Live()[..SPLIT_POINT], page.Live()[SPLIT_POINT..];
    if HasRoom(m, page.prev) then
      h.(mem := m[page.prev := m[page.prev].Append(front)][p := page.DropFront(SPLIT_POINT)])
    else if HasRoom(m, page.next) then
      h.(mem := m[page.next := m[page.next].Prepend(back)][p := page.Truncate(SPLIT_POINT)])
    else
      var e := EmptyPage().(prev := p, next := page.next).Prepend(back);
      h.(mem := m[h.spare := e][p := page.Truncate(SPLIT_POINT).(next := h.spare)], spare := h.spare + 1)
  }

  function SplitIdx(h: Heap, p: Ptr, idx: nat): SplitIndex
    requires p in h.mem
  {
    if HasRoom(h.mem, h.mem[p].prev) then
      if idx < SPLIT_POINT then Prev(h.mem[h.mem[p].prev].len + idx) else This(idx - SPLIT_POINT)
    else if idx >= SPLIT_POINT then Next(idx - SPLIT_POINT) else This(idx)
  }

  datatype Spot = Spot(heap: Heap, page: Ptr, idx: nat)

  function InsertAt(h: Heap, p: Ptr, idx: nat, r: Region): (s: Option<Spot>)
    requires Shaped(h.mem)
    ensures s.Some? ==> Shaped(s.value.heap.mem)
  {
    if p in h.mem && h.mem[p].len < CAPACITY && idx <= h.mem[p].len then
      Some(Spot(h.(mem := h.mem[p := h.mem[p].InsertRegion(r, idx)]), p, idx))
    else None
  }

  /** The region put among the regions of page `p`: joined on both sides, on one, or inserted, in a
      page that is split when it is full. */
  function Place(h: Heap, p: Ptr, s: Search, r: Region): (t: Option<Spot>)
    requires Shaped(h.mem) && p in h.mem && Pos(s) <= h.mem[p].len
    ensures t.Some? ==> Shaped(t.value.heap.mem)
  {
    var page := h.mem[p];
    var live := page.Live();
    match s
    case Found(i) =>
      if i + 1 < page.len && live[i + 1].start == r.end then
        Some(Spot(h.(mem := h.mem[p := page.JoinNext(i)]), p, i))
      else
        Some(Spot(h.(mem := h.mem[p := page.SetRegion(i, live[i].(end := r.end))]), p, i))
    case Missing(i) =>
      if i < page.len && live[i].start == r.end then
        Some(Spot(h.(mem := h.mem[p := page.SetRegion(i, live[i].(start := r.start))]), p, i))
      else if page.len < CAPACITY then InsertAt(h, p, i, r)
      else
        var h' := Split(h, p);
        match SplitIdx(h, p, i)
        case Prev(j) => InsertAt(h', page.prev, j, r)
        case This(j) => InsertAt(h', p, j, r)
        case Next(j) => if p in h'.mem then InsertAt(h', h'.mem[p].next, j, r) else None
  }

  /** Joins two pages; the code asserts that the first links to the second. */
  function CombinePages(m: Memory, p: Ptr, q: Ptr): (m': Option<Memory>)
    requires Shaped(m) && p in m && q in m
    ensures m'.Some? ==> Shaped(m'.value) && p in m'.value && |m'.value| < |m|
  {
    if m[p].next != q || m[p].len + m[q].len > CAPACITY || p == q then None
    else
      var next := m[q].next;
      var joined := m[p := m[p].Append(m[q].Live()).(next := next)];
      if next != NULL && next !in m then None
      else
        var linked := if next == NULL then joined else joined[next := joined[next].(prev := p)];
        assert linked.Keys == m.Keys && (linked - {q}).Keys == m.Keys - {q};
        if next == p || next == q then None else Some(linked - {q})
  }

  function CombineIfSmall(m: Memory, p: Ptr): (m': Option<Memory>)
    requires Shaped(m)
    ensures m'.Some? ==> Shaped(m'.value)
    decreases |m|
  {
    if p !in m then None
    else if m[p].prev in m && ShouldCombine(m[m[p].prev], m[p]) then
      match CombinePages(m, m[p].prev, p)
      case None => None
      case Some(m') => CombineIfSmall(m', m[p].prev)
    else if m[p].next in m && ShouldCombine(m[p], m[m[p].next]) then
      match CombinePages(m, p, m[p].next)
      case None => None
      case Some(m') => CombineIfSmall(m', p)
    else Some(m)
  }

  datatype Merge = Merge(mem: Memory, did: bool)

  /** Merges the last region of a page with the first one of the next page if they touch. */
  function TryCoalesceAt(m: Memory, p: Ptr, steps: nat): (c: Option<Merge>)
    requires Shaped(m)
    ensures c.Some? ==> Shaped(c.value.mem)
    decreases steps
  {
    if p !in m || steps == 0 then None
    else if m[p].len == 0 || m[p].next == NULL then Some(Merge(m, false))
    else if m[p].next !in m then None
    else
      var q := m[p].next;
      var last := m[p].regions[m[p].len - 1];
      if last.end != m[q].regions[0].start then Some(Merge(m, false))
      else
        var grown := m[q].(regions := m[q].regions[0 := m[q].regions[0].(start := last.start)]);
        var m1 := m[q := grown];
        var m2 := m1[p := m1[p].Truncate(m1[p].len - 1)];
        match (if m[q].len == 1 then TryCoalesceAt(m2, q, steps - 1) else Some(Merge(m2, false)))
        case None => None
        case Some(c) =>
          match CombineIfSmall(c.mem, p)
          case None => None
          case Some(m') => Some(Merge(m', true))
  }

  /** The two attempts that end a free. */
  function CoalesceAround(s: Spot): Option<Heap>
    requires Shaped(s.heap.mem)
  {
    var h, m := s.heap, s.heap.mem;
    if s.page !in m then None
    else
      match (if s.idx == 0 && m[s.page].prev != NULL then TryCoalesceAt(m, m[s.page].prev, |m|) else Some(Merge(m, false)))
      case None => None
      case Some(first) =>
        if first.did || s.page !in first.mem || s.idx + 1 != first.mem[s.page].len then Some(h.(mem := first.mem))
        else
          match TryCoalesceAt(first.mem, s.page, |first.mem|)
          case None => None
          case Some(second) => Some(h.(mem := second.mem))
  }

  function FreeOn(h: Heap, r: Region): Option<Heap>
    requires Shaped(h.mem)
  {
    match FindPage(h.mem, h.head, r, |h.mem|)
    case None => None
    case Some(p) =>
      if p !in h.mem then None
      else
        var s := SearchEnds(h.mem[p].Live(), r.start);
        match OverlapSeen(h.mem, h.mem[p], s, r)
        case None => None
        case Some(overlap) =>
          if overlap then None
          else
            match Place(h, p, s, r)
            case None => None
            case Some(spot) => CoalesceAround(spot)
  }

  /** Freeing a region as the code does. */
  function FreeRegion(h: Heap, r: Region): Option<Heap>
    requires Shaped(h.mem) && r.start <= r.end
  {
    if !PageAligned(r) then None
    else if r.start == r.end then Some(h)
    else if h.head == NULL then FreeOn(Heap(h.spare, h.mem[h.spare := EmptyPage()], h.spare + 1), r)
    else FreeOn(h, r)
  }

  // ---- allocating ----

  /** Whether some page from `p` on holds a region with room for `size` bytes. */
  predicate Fits(m: Memory, p: Ptr, size: nat, steps: nat)
    decreases steps
  {
    p in m && steps > 0
    && ((exists i :: 0 <= i < |m[p].Live()| && m[p].Live()[i].end - m[p].Live()[i].start >= size)
        || Fits(m, m[p].next, size, steps - 1))
  }

  /** Allocating finds nothing exactly when no region is large enough. */
  predicate AllocFinds(h: Heap, size: nat) {
    Fits(h.mem, h.head, size, |h.mem|)
  }

  /** The addresses that the pages of the heap list as free. */
  ghost predicate ListedIn(h: Heap, p: Ptr, a: int) {
    p in h.mem && exists i :: 0 <= i < |h.mem[p].Live()| && Has(h.mem[p].Live()[i], a)
  }

  // ---- a run of frees ----

  /** One page in four, from a base address on. */
  function Slot(base: int, n: int): Region {
    Region(base + 4 * n * PAGE_SIZE, base + (4 * n + 1) * PAGE_SIZE)
  }

  function Row(base: int, lo: nat, hi: nat): (rs: seq<Region>)
    requires lo <= hi
    ensures |rs| == hi - lo && forall i :: 0 <= i < hi - lo ==> rs[i] == Slot(base, lo + i)
  {
    seq(hi - lo, i requires 0 <= i < hi - lo => Slot(base, lo + i))
  }

  lemma RowFront(base: int, lo: nat, hi: nat)
    requires lo < hi
    ensures Row(base, lo, hi) == [Slot(base, lo)] + Row(base, lo + 1, hi)
  {
  }

  lemma RowCut(base: int, lo: nat, mid: nat, hi: nat)
    requires lo <= mid <= hi
    ensures Row(base, lo, hi)[..mid - lo] == Row(base, lo, mid) && Row(base, lo, hi)[mid - lo..] == Row(base, mid, hi)
  {
  }

  /** The whole run: the slots are freed one by one, from the last one down. */
  const SLOTS: nat := 382

  /** A heap of one page that holds slots `k` and up. */
  ghost predicate OnePage(h: Heap, base: int, k: nat) {
    && k <= SLOTS && h.head == 1 && h.spare == 2 && h.mem.Keys == {1}
    && Shaped(h.mem) && h.mem[1].prev == NULL && h.mem[1].next == NULL
    && h.mem[1].Live() == Row(base, k, SLOTS)
  }

  /** A heap of two pages, the second with 127 slots. */
  ghost predicate TwoPages(h: Heap, base: int, k: nat) {
    && k <= 255 && h.head == 1 && h.spare == 3 && h.mem.Keys == {1, 2}
    && Shaped(h.mem) && h.mem[1].prev == NULL && h.mem[1].next == 2 && h.mem[2].prev == 1 && h.mem[2].next == NULL
    && h.mem[1].Live() == Row(base, k, 255) && h.mem[2].Live() == Row(base, 255, SLOTS)
  }

  /** A heap of three pages, the last of which points back past the middle one. */
  ghost predicate Stale(h: Heap, base: int) {
    && h.head == 1 && h.spare == 4 && h.mem.Keys == {1, 2, 3}
    && Shaped(h.mem) && h.mem[1].prev == NULL && h.mem[1].next == 3 && h.mem[3].prev == 1 && h.mem[3].next == 2
    && h.mem[2].prev == 1 && h.mem[2].next == NULL
    && h.mem[1].Live() == Row(base, 0, 128) && h.mem[3].Live() == Row(base, 128, 255) && h.mem[2].Live() == Row(base, 255, SLOTS)
  }

  /** A region that ends before the first one of the page. */
  lemma SearchFront(rs: seq<Region>, r: Region)
    requires rs != [] ==> r.end < rs[0].start <= rs[0].end && r.start < r.end
    ensures SearchEnds(rs, r.start) == Missing(0)
  {
  }

  lemma KeysSize(m: Memory)
    ensures m.Keys == {1} ==> |m| == 1
    ensures m.Keys == {1, 2} ==> |m| == 2
    ensures m.Keys == {1, 2, 3} ==> |m| == 3
  {
    assert |m| == |m.Keys|;
  }

  lemma FirstFree(base: int) returns (h: Heap)
    requires base % PAGE_SIZE == 0
    ensures FreeRegion(EMPTY, Slot(base, SLOTS - 1)) == Some(h) && OnePage(h, base, SLOTS - 1)
  {
    var r := Slot(base, SLOTS - 1);
    var m: Memory := map[1 := EmptyPage()];
    KeysSize(m);
    assert EmptyPage().Live() == [];
    h := Heap(1, m[1 := EmptyPage().InsertRegion(r, 0)], 2);
    assert h.mem[1].Live() == [r] == Row(base, SLOTS - 1, SLOTS);
    assert FindPage(m, 1, r, 1) == Some(1);
    assert Place(Heap(1, m, 2), 1, Missing(0), r) == Some(Spot(h, 1, 0));
    OnlyPageStays(h);
  }

  lemma OnlyPageStays(h: Heap)
    requires Shaped(h.mem) && h.mem.Keys == {1} && h.mem[1].prev == NULL && h.mem[1].next == NULL && h.mem[1].len == 1
    ensures CoalesceAround(Spot(h, 1, 0)) == Some(h)
  {
    KeysSize(h.mem);
    assert TryCoalesceAt(h.mem, 1, 1) == Some(Merge(h.mem, false));
    assert h.(mem := h.mem) == h;
  }

  /** Freeing a region in front of all others comes down to placing it at the front of page 1. */
  lemma FrontFree(h: Heap, r: Region)
    requires Shaped(h.mem) && h.head == 1 && 1 in h.mem && h.mem[1].prev == NULL
    requires PageAligned(r) && r.start < r.end
    requires h.mem[1].Live() != [] && r.end < h.mem[1].Live()[0].start <= h.mem[1].Live()[0].end
    requires h.mem[1].next != NULL ==> var x := FrontOf(h.mem, h.mem[1].next); x.Some? && r.end < x.value.start
    ensures FreeRegion(h, r) == match Place(h, 1, Missing(0), r) case None => None case Some(spot) => CoalesceAround(spot)
  {
    assert |h.mem| > 0 by {
      assert 1 in h.mem.Keys;
    }
    assert FindPage(h.mem, 1, r, |h.mem|) == Some(1);
    SearchFront(h.mem[1].Live(), r);
    assert OverlapSeen(h.mem, h.mem[1], Missing(0), r) == Some(false);
  }

  /** After it nothing is merged: there is no page in front, and it is not the last region. */
  lemma FrontStays(h: Heap)
    requires Shaped(h.mem) && 1 in h.mem && h.mem[1].prev == NULL && h.mem[1].len > 1
    ensures CoalesceAround(Spot(h, 1, 0)) == Some(h)
  {
    assert h.(mem := h.mem) == h;
  }

  lemma SlotsApart(base: int, k: nat)
    requires base % PAGE_SIZE == 0
    ensures PageAligned(Slot(base, k)) && Slot(base, k).start < Slot(base, k).end < Slot(base, k + 1).start < Slot(base, k + 1).end
    ensures Slot(base, k).end < Slot(base, 255).start || k >= 255
  {
  }

  lemma InOnePage(h: Heap, base: int, k: nat) returns (h': Heap)
    requires OnePage(h, base, k + 1) && 128 <= k < SLOTS - 1 && base % PAGE_SIZE == 0
    ensures FreeRegion(h, Slot(base, k)) == Some(h') && OnePage(h', base, k)
  {
    var r := Slot(base, k);
    SlotsApart(base, k);
    FrontFree(h, r);
    h' := h.(mem := h.mem[1 := h.mem[1].InsertRegion(r, 0)]);
    RowFront(base, k, SLOTS);
    assert h'.mem[1].Live() == [] + [r] + Row(base, k + 1, SLOTS) == Row(base, k, SLOTS);
    FrontStays(h');
  }

  lemma InTwoPages(h: Heap, base: int, k: nat) returns (h': Heap)
    requires TwoPages(h, base, k + 1) && 1 <= k < 127 && base % PAGE_SIZE == 0
    ensures FreeRegion(h, Slot(base, k)) == Some(h') && TwoPages(h', base, k)
  {
    var r := Slot(base, k);
    SlotsApart(base, k);
    FrontFree(h, r);
    h' := h.(mem := h.mem[1 := h.mem[1].InsertRegion(r, 0)]);
    RowFront(base, k, 255);
    assert h'.mem[1].Live() == [] + [r] + Row(base, k + 1, 255) == Row(base, k, 255);
    FrontStays(h');
  }

  /** What the split of page 1 makes of it when there is no room in a neighbour. */
  lemma SplitsOff(h: Heap, base: int, k: nat, mid: nat, hi: nat)
    requires Shaped(h.mem) && 1 in h.mem && h.mem[1].prev == NULL && !HasRoom(h.mem, h.mem[1].next)
    requires k + 127 == mid && k + 254 == hi && h.mem[1].Live() == Row(base, k, hi) && h.spare !in h.mem && h.spare != NULL
    ensures h.mem[1].len == CAPACITY
    ensures SplitInTwo(h, Split(h, 1), base, k, mid, hi)
    ensures SplitIdx(h, 1, 0) == This(0)
  {
    RowCut(base, k, mid, hi);
    assert |h.mem[1].Live()| == h.mem[1].len;
    assert EmptyPage().Live() == [];
  }

  /** Page 1 keeps slots up to `mid` and a new page behind it takes the others. */
  ghost predicate SplitInTwo(h: Heap, h': Heap, base: int, k: nat, mid: nat, hi: nat)
    requires k <= mid <= hi && 1 in h.mem
  {
    && h'.head == h.head && h'.spare == h.spare + 1 && h'.mem.Keys == h.mem.Keys + {h.spare} && Shaped(h'.mem)
    && h'.mem[1].prev == NULL && h'.mem[1].next == h.spare && h'.mem[1].Live() == Row(base, k, mid)
    && h'.mem[h.spare].prev == 1 && h'.mem[h.spare].next == h.mem[1].next && h'.mem[h.spare].Live() == Row(base, mid, hi)
    && forall p :: p in h.mem && p != 1 ==> h'.mem[p] == h.mem[p]
  }

  /** Freeing the slot in front of a full page 1 splits it. */
  lemma FrontSplits(h: Heap, base: int, k: nat, mid: nat, hi: nat) returns (h': Heap)
    requires Shaped(h.mem) && h.head == 1 && 1 in h.mem && h.mem[1].prev == NULL && !HasRoom(h.mem, h.mem[1].next)
    requires k + 128 == mid && k + 255 == hi && h.mem[1].Live() == Row(base, k + 1, hi) && h.spare !in h.mem && h.spare > 1
    requires base % PAGE_SIZE == 0
    requires h.mem[1].next != NULL ==> var x := FrontOf(h.mem, h.mem[1].next); x.Some? && Slot(base, k).end < x.value.start
    ensures FreeRegion(h, Slot(base, k)) == Some(h') && SplitInTwo(h, h', base, k, mid, hi)
  {
    var r := Slot(base, k);
    SlotsApart(base, k);
    FrontFree(h, r);
    SplitsOff(h, base, k + 1, mid, hi);
    h' := FrontOfSplit(h, Split(h, 1), base, k, mid, hi);
  }

  lemma FrontOfSplit(h: Heap, s: Heap, base: int, k: nat, mid: nat, hi: nat) returns (h': Heap)
    requires 1 in h.mem && k + 128 == mid && k + 255 == hi && h.spare > 1 && SplitInTwo(h, s, base, k + 1, mid, hi)
    ensures InsertAt(s, 1, 0, Slot(base, k)) == Some(Spot(h', 1, 0)) && CoalesceAround(Spot(h', 1, 0)) == Some(h')
    ensures SplitInTwo(h, h', base, k, mid, hi)
  {
    var r := Slot(base, k);
    assert |s.mem[1].Live()| == s.mem[1].len == 127;
    h' := s.(mem := s.mem[1 := s.mem[1].InsertRegion(r, 0)]);
    RowFront(base, k, mid);
    assert h'.mem[1].Live() == [] + [r] + Row(base, k + 1, mid) == Row(base, k, mid);
    FrontStays(h');
  }

  lemma FirstSplit(h: Heap, base: int) returns (h': Heap)
    requires OnePage(h, base, 128) && base % PAGE_SIZE == 0
    ensures FreeRegion(h, Slot(base, 127)) == Some(h') && TwoPages(h', base, 127)
  {
    h' := FrontSplits(h, base, 127, 255, SLOTS);
  }

  /** The second split puts a page between the first and the one behind it, which is not told. */
  lemma SecondSplit(h: Heap, base: int) returns (h': Heap)
    requires TwoPages(h, base, 1) && base % PAGE_SIZE == 0
    ensures FreeRegion(h, Slot(base, 0)) == Some(h') && Stale(h', base)
  {
    assert |h.mem[2].Live()| == h.mem[2].len == 127;
    assert h.mem[2].Live()[0] == Slot(base, 255);
    SlotsApart(base, 0);
    h' := FrontSplits(h, base, 0, 128, 255);
  }

  /** Freeing `r` takes the heap from `h` to `h'`. */
  ghost predicate Frees(h: Heap, r: Region, h': Heap) {
    forall k: nat {:trigger Look(k)} :: Look(k) ==> Shaped(h.mem) && r.start <= r.end && FreeRegion(h, r) == Some(h')
  }

  /** The heaps of a run that frees the slots one by one, the last one first. */
  ghost predicate FreesDown(hs: seq<Heap>, base: int) {
    && 0 < |hs| <= SLOTS + 1 && hs[0] == EMPTY
    && (forall i :: 0 <= i < |hs| - 1 ==> FreesSlot(hs, base, i))
  }

  ghost predicate FreesSlot(hs: seq<Heap>, base: int, i: nat)
    requires i + 1 < |hs| <= SLOTS + 1
  {
    Frees(hs[i], Slot(base, SLOTS - 1 - i), hs[i + 1])
  }

  lemma OneMore(hs: seq<Heap>, base: int, h: Heap)
    requires FreesDown(hs, base) && |hs| <= SLOTS
    requires Frees(hs[|hs| - 1], Slot(base, SLOTS - |hs|), h)
    ensures FreesDown(hs + [h], base)
  {
    forall i | 0 <= i < |hs|
      ensures FreesSlot(hs + [h], base, i)
    {
      OneMoreSlot(hs, base, h, i);
    }
  }

  lemma OneMoreSlot(hs: seq<Heap>, base: int, h: Heap, i: nat)
    requires i < |hs| <= SLOTS
    requires if i + 1 < |hs| then FreesSlot(hs, base, i) else Frees(hs[i], Slot(base, SLOTS - 1 - i), h)
    ensures FreesSlot(hs + [h], base, i)
  {
    var hs' := hs + [h];
    assert hs'[i] == hs[i] && hs'[i + 1] == if i + 1 < |hs| then hs[i + 1] else h;
  }

  ghost predicate Downto(h: Heap, base: int, k: nat) {
    if k >= 128 then OnePage(h, base, k) else if k >= 1 then TwoPages(h, base, k) else Stale(h, base)
  }

  lemma FreesNext(h: Heap, base: int, k: nat) returns (h': Heap)
    requires k < SLOTS - 1 && base % PAGE_SIZE == 0 && Downto(h, base, k + 1)
    ensures Frees(h, Slot(base, k), h') && Downto(h', base, k)
  {
    if k >= 128 {
      h' := InOnePage(h, base, k);
    } else if k == 127 {
      h' := FirstSplit(h, base);
    } else if k >= 1 {
      h' := InTwoPages(h, base, k);
    } else {
      h' := SecondSplit(h, base);
    }
  }

  lemma {:induction false} RunDown(base: int, k: nat) returns (hs: seq<Heap>)
    requires k < SLOTS && base % PAGE_SIZE == 0
    ensures FreesDown(hs, base) && |hs| == SLOTS - k + 1 && Downto(hs[SLOTS - k], base, k)
    decreases SLOTS - k
  {
    if k == SLOTS - 1 {
      var h := FirstFree(base);
      hs := [EMPTY, h];
      assert Frees(EMPTY, Slot(base, SLOTS - 1), h);
      assert FreesSlot(hs, base, 0);
    } else {
      hs := RunDown(base, k + 1);
      var h := FreesNext(hs[|hs| - 1], base, k);
      OneMore(hs, base, h);
      hs := hs + [h];
    }
  }

  // ---- what comes of it ----

  /** 382 frees of single pages, from any base address, leave a chain whose forward links are right
      and whose last page points back past the middle one. */
  lemma StaleBackLink(base: int) returns (hs: seq<Heap>, h: Heap)
    requires base % PAGE_SIZE == 0
    ensures FreesDown(hs, base) && |hs| == SLOTS + 1 && h == hs[SLOTS] && Stale(h, base)
    ensures Pages(h.mem, [1, 3, 2]) && Forward(h.mem, [1, 3, 2]) && !Backward(h.mem, [1, 3, 2])
  {
    hs := RunDown(base, 0);
    h := hs[SLOTS];
    var ps := [1, 3, 2];
    assert h.mem[ps[2]].prev == 1 != ps[1];
  }

  /** On that heap a region in front of slot 255 is placed in the last page, and is compared only
      with the regions of the first page on its left. */
  lemma LandsInLast(h: Heap, base: int, r: Region) returns (h': Heap)
    requires Stale(h, base) && base % PAGE_SIZE == 0
    requires PageAligned(r) && Slot(base, 254).start <= r.start < r.end == Slot(base, 255).start
    ensures FreeRegion(h, r) == Some(h')
    ensures h'.head == 1 && h'.mem.Keys == {1, 2, 3} && h'.mem[1] == h.mem[1] && h'.mem[3] == h.mem[3]
    ensures h'.mem[2].next == NULL
    ensures h'.mem[2].Live() == [Region(r.start, Slot(base, 255).end)] + Row(base, 256, SLOTS)
  {
    var m := h.mem;
    KeysSize(m);
    assert FindPage(m, 2, r, 1) == Some(2);
    assert FindPage(m, 3, r, 2) == Some(2);
    assert FindPage(m, 1, r, 3) == Some(2);
    var live := m[2].Live();
    assert live[0] == Slot(base, 255);
    assert SearchEnds(live, r.start) == Missing(0);
    assert BackOf(m, 1) == Some(Slot(base, 127));
    assert OverlapSeen(m, m[2], Missing(0), r) == Some(false);
    h' := h.(mem := m[2 := m[2].SetRegion(0, live[0].(start := r.start))]);
    assert Place(h, 2, Missing(0), r) == Some(Spot(h', 2, 0));
    assert live[1..] == Row(base, 256, SLOTS);
    LinksDoNotTouch(h', base);
  }

  lemma LinksDoNotTouch(h: Heap, base: int)
    requires Shaped(h.mem) && h.mem.Keys == {1, 2, 3} && h.mem[2].prev == 1 && h.mem[2].len > 1
    requires h.mem[1].next == 3 && h.mem[1].Live() == Row(base, 0, 128) && h.mem[3].Live() == Row(base, 128, 255)
    ensures CoalesceAround(Spot(h, 2, 0)) == Some(h)
  {
    KeysSize(h.mem);
    assert |h.mem[1].Live()| == h.mem[1].len == 128 && |h.mem[3].Live()| == h.mem[3].len == 127;
    assert h.mem[1].Live()[127] == h.mem[1].regions[127];
    assert h.mem[3].Live()[0] == h.mem[3].regions[0];
    assert TryCoalesceAt(h.mem, 1, 3) == Some(Merge(h.mem, false));
    assert h.(mem := h.mem) == h;
  }

  /** Calls that are all legal then give a wrong answer: the gap behind slot 254 is freed, so that
      five pages in a row are free, but they are not merged and no five pages can be allocated. */
  lemma FreeRunNotFound(base: int) returns (hs: seq<Heap>, h: Heap, h': Heap)
    requires base % PAGE_SIZE == 0
    ensures FreesDown(hs, base) && |hs| == SLOTS + 1 && h == hs[SLOTS] && Shaped(h.mem)
    ensures var gap := Region(Slot(base, 254).end, Slot(base, 255).start);
            && (forall p, a :: Has(gap, a) ==> !ListedIn(h, p, a))
            && FreeRegion(h, gap) == Some(h')
    ensures forall a :: Slot(base, 254).start <= a < Slot(base, 254).start + 5 * PAGE_SIZE ==> ListedIn(h', 3, a) || ListedIn(h', 2, a)
    ensures !AllocFinds(h', 5 * PAGE_SIZE)
  {
    hs, h := StaleBackLink(base);
    var gap := Region(Slot(base, 254).end, Slot(base, 255).start);
    h' := LandsInLast(h, base, gap);
    NotListed(h, base, gap);
    assert h'.mem[3].Live()[126] == Slot(base, 254);
    assert h'.mem[2].Live()[0] == Region(gap.start, Slot(base, 255).end);
    forall a | Slot(base, 254).start <= a < Slot(base, 254).start + 5 * PAGE_SIZE
      ensures ListedIn(h', 3, a) || ListedIn(h', 2, a)
    {
      assert Has(h'.mem[3].Live()[126], a) || Has(h'.mem[2].Live()[0], a);
    }
    NothingFits(h', base);
  }

  lemma NotListed(h: Heap, base: int, gap: Region)
    requires Stale(h, base) && gap == Region(Slot(base, 254).end, Slot(base, 255).start)
    ensures forall p, a :: Has(gap, a) ==> !ListedIn(h, p, a)
  {
    forall p, a | Has(gap, a) && p in h.mem
      ensures !ListedIn(h, p, a)
    {
      forall i | 0 <= i < |h.mem[p].Live()|
        ensures !Has(h.mem[p].Live()[i], a)
      {
        var n := (if p == 1 then 0 else if p == 3 then 128 else 255) + i;
        assert h.mem[p].Live()[i] == Slot(base, n);
        assert n <= 254 || n >= 255;
      }
    }
  }

  lemma NothingFits(h: Heap, base: int)
    requires h.head == 1 && h.mem.Keys == {1, 2, 3} && h.mem[1].next == 3 && h.mem[3].next == 2 && h.mem[2].next == NULL
    requires h.mem[1].Live() == Row(base, 0, 128) && h.mem[3].Live() == Row(base, 128, 255)
    requires h.mem[2].Live() == [Region(Slot(base, 254).end, Slot(base, 255).end)] + Row(base, 256, SLOTS)
    ensures !AllocFinds(h, 5 * PAGE_SIZE)
  {
    var m := h.mem;
    KeysSize(m);
    forall i | 0 <= i < |m[2].Live()|
      ensures m[2].Live()[i].end - m[2].Live()[i].start < 5 * PAGE_SIZE
    {
      assert i > 0 ==> m[2].Live()[i] == Slot(base, 255 + i);
    }
    assert !Fits(m, 2, 5 * PAGE_SIZE, 1);
    assert !Fits(m, 3, 5 * PAGE_SIZE, 2);
    assert !Fits(m, 1, 5 * PAGE_SIZE, 3);
  }

  /** And a call that should panic is accepted: a region that starts with slot 254, which is free
      already, is freed again, and its first page is listed twice. */
  lemma OverlapAccepted(base: int) returns (hs: seq<Heap>, h: Heap, h': Heap)
    requires base % PAGE_SIZE == 0
    ensures FreesDown(hs, base) && |hs| == SLOTS + 1 && h == hs[SLOTS] && Shaped(h.mem)
    ensures ListedIn(h, 3, Slot(base, 254).start)
    ensures FreeRegion(h, Region(Slot(base, 254).start, Slot(base, 255).start)) == Some(h')
    ensures ListedIn(h', 3, Slot(base, 254).start) && ListedIn(h', 2, Slot(base, 254).start)
  {
    hs, h := StaleBackLink(base);
    h' := LandsInLast(h, base, Region(Slot(base, 254).start, Slot(base, 255).start));
    var a := Slot(base, 254).start;
    assert h.mem[3].Live()[126] == Slot(base, 254) && Has(h.mem[3].Live()[126], a);
    assert Has(h'.mem[2].Live()[0], a);
  }
}
