/** Freeing as coded, on a chain of pages that is well linked and a list that is coalesced: it gives
    the answers of a set of free addresses, and leaves the chain well linked exactly when it did not
    put a new page in front of another. So frees in ascending order always do, and the pages they
    take can be counted.
 */
module VirtualCoded {
  import opened Basics
  import opened Regions
  import opened Chunks
  import opened AllocPages
  import opened VirtualAlloc
  import opened VirtualAsWritten

  /** The chain `ps`, all links of it right. */
  ghost predicate Linked(h: Heap, ps: seq<Ptr>) {
    ForwardLinked(h, ps) && Backward(h.mem, ps)
  }

  /** The chain `ps`, the forward links of it right. */
  ghost predicate ForwardLinked(h: Heap, ps: seq<Ptr>) {
    && h.head == At(ps, 0) && Pages(h.mem, ps) && Forward(h.mem, ps) && Full(Contents(h.mem, ps))
    && Shaped(h.mem) && h.spare != NULL && (forall p :: p in h.mem ==> NULL < p < h.spare)
  }

  // ---- the walk and the search ----

  lemma {:induction false} PagesFit(m: Memory, ps: seq<Ptr>)
    requires Pages(m, ps)
    ensures |ps| <= |m|
  {
    if ps != [] {
      var rest := m - {ps[0]};
      assert |rest.Keys| == |m.Keys - {ps[0]}| == |m| - 1;
      PagesFit(rest, ps[1..]);
    }
  }

  /** The walk ends at the last page that does not start past the end of the region. */
  lemma {:induction false} WalkEnds(m: Memory, ps: seq<Ptr>, k: int, r: Region, steps: nat) returns (j: int)
    requires Chain(m, ps) && Full(Contents(m, ps)) && 0 <= k < |ps| && steps >= |ps| - k
    requires k > 0 ==> Contents(m, ps)[k] != [] && Contents(m, ps)[k][0].start <= r.end
    ensures k <= j < |ps| && FindPage(m, ps[k], r, steps) == Some(ps[j])
    ensures j > 0 ==> Contents(m, ps)[j] != [] && Contents(m, ps)[j][0].start <= r.end
    ensures j + 1 < |ps| ==> Contents(m, ps)[j + 1] != [] && r.end < Contents(m, ps)[j + 1][0].start
    decreases |ps| - k
  {
    Neighbours(m, ps, k);
    j := k;
    if k + 1 < |ps| && Contents(m, ps)[k + 1][0].start <= r.end {
      j := WalkEnds(m, ps, k + 1, r, steps - 1);
    }
  }

  lemma {:induction false} FirstEndBounds(rs: seq<Region>, a: int)
    ensures forall i :: 0 <= i < FirstEnd(rs, a) ==> rs[i].end < a
    ensures FirstEnd(rs, a) < |rs| ==> rs[FirstEnd(rs, a)].end >= a
  {
    if rs != [] && rs[0].end < a {
      FirstEndBounds(rs[1..], a);
    }
  }

  lemma SearchCoded(m: Memory, ps: seq<Ptr>, k: int, r: Region)
    requires Pages(m, ps) && 0 <= k < |ps| && Coalesced(AllRegions(m, ps))
    requires k > 0 ==> Contents(m, ps)[k] != [] && Contents(m, ps)[k][0].start <= r.end
    requires k + 1 < |ps| ==> Contents(m, ps)[k + 1] != [] && r.end < Contents(m, ps)[k + 1][0].start
    ensures Searched(Contents(m, ps), k, SearchEnds(m[ps[k]].Live(), r.start), r)
  {
    var live := m[ps[k]].Live();
    assert Contents(m, ps)[k] == live;
    ChunkCoalesced(Contents(m, ps), k);
    FirstEndBounds(live, r.start);
    var s := SearchEnds(live, r.start);
    forall i | Pos(s) <= i < |live|
      ensures r.start < live[i].end
    {
      EndsAscend(live, FirstEnd(live, r.start), i);
    }
  }

  lemma EndsAscend(rs: seq<Region>, i: nat, j: nat)
    requires Coalesced(rs) && i <= j < |rs|
    ensures i < j ==> rs[i].end < rs[j].end
    ensures rs[i].end <= rs[j].end
  {
    assert Proper(rs[j]);
  }

  lemma OverlapCoded(m: Memory, ps: seq<Ptr>, k: int, s: Search, r: Region)
    requires Chain(m, ps) && Full(Contents(m, ps)) && 0 <= k < |ps| && Pos(s) <= |m[ps[k]].Live()|
    ensures Pos(s) <= |Contents(m, ps)[k]|
    ensures OverlapSeen(m, m[ps[k]], s, r) == Some(AlreadyFree(Contents(m, ps), k, s, r))
  {
    Neighbours(m, ps, k);
  }

  // ---- placing the region ----

  /** `t` is what placing `r` on `h` makes, `ps'` the chain and `k'` the page then. */
  ghost predicate PlacedOn(h: Heap, ps: seq<Ptr>, r: Region, t: Spot, ps': seq<Ptr>, k': int) {
    && ForwardLinked(t.heap, ps') && 0 <= k' < |ps'| && ps'[k'] == t.page
    && t.heap.mem[t.page].prev == At(ps', k' - 1)
    && Placed(Contents(h.mem, ps), r, Contents(t.heap.mem, ps'), k', t.idx)
  }

  /** The regions of one page rewritten. */
  lemma EditKeeps(h: Heap, ps: seq<Ptr>, k: int, page: Page, b: int)
    requires ForwardLinked(h, ps) && BackwardExcept(h.mem, ps, b) && 0 <= k < |ps|
    requires page.Shape() && page.SameLinks(h.mem[ps[k]]) && page.Live() != []
    ensures var h' := h.(mem := h.mem[ps[k] := page]);
            && ForwardLinked(h', ps) && BackwardExcept(h'.mem, ps, b)
            && (Backward(h'.mem, ps) <==> Backward(h.mem, ps))
            && Contents(h'.mem, ps) == Contents(h.mem, ps)[k := page.Live()]
  {
    EditPage(h.mem, ps, k, page);
    TransferLinks(h.mem, h.mem[ps[k] := page], ps, b);
    TransferLinks(h.mem, h.mem[ps[k] := page], ps, -1);
  }

  /** Whether placing `r` splits the page. */
  predicate Splits(page: Page, s: Search, r: Region) {
    s.Missing? && page.len == CAPACITY && !(s.i < |page.Live()| && page.Live()[s.i].start == r.end)
  }

  /** Without a split the page is edited in place: next to the region found ... */
  lemma PlaceFound(h: Heap, ps: seq<Ptr>, k: int, i: nat, r: Region) returns (t: Spot)
    requires Linked(h, ps) && 0 <= k < |ps| && FreeSpot(Contents(h.mem, ps), k, Found(i), r) && i < h.mem[ps[k]].len
    ensures Place(h, ps[k], Found(i), r) == Some(t) && PlacedOn(h, ps, r, t, ps, k) && Linked(t.heap, ps)
  {
    var page, cs := h.mem[ps[k]], Contents(h.mem, ps);
    var live := page.Live();
    Links(h.mem, ps, k);
    assert cs[k] == live;
    t := Place(h, ps[k], Found(i), r).value;
    if i + 1 < page.len && live[i + 1].start == r.end {
      PlaceBetween(cs, k, i, r);
      EditKeeps(h, ps, k, page.JoinNext(i), -1);
    } else {
      PlaceAfter(cs, k, i, r);
      EditKeeps(h, ps, k, page.SetRegion(i, live[i].(end := r.end)), -1);
    }
  }

  /** ... or before the next one, or between the two. */
  lemma PlaceMissing(h: Heap, ps: seq<Ptr>, k: int, i: nat, r: Region) returns (t: Spot)
    requires Linked(h, ps) && 0 <= k < |ps| && FreeSpot(Contents(h.mem, ps), k, Missing(i), r) && i <= h.mem[ps[k]].len
    requires !Splits(h.mem[ps[k]], Missing(i), r)
    ensures Place(h, ps[k], Missing(i), r) == Some(t) && PlacedOn(h, ps, r, t, ps, k) && Linked(t.heap, ps)
  {
    var page, cs := h.mem[ps[k]], Contents(h.mem, ps);
    var live := page.Live();
    Links(h.mem, ps, k);
    assert cs[k] == live;
    t := Place(h, ps[k], Missing(i), r).value;
    if i < page.len && live[i].start == r.end {
      PlaceBefore(cs, k, i, r);
      EditKeeps(h, ps, k, page.SetRegion(i, live[i].(start := r.start)), -1);
    } else {
      PlaceAlone(cs, k, i, r, cs, k, i);
      EditKeeps(h, ps, k, page.InsertRegion(r, i), -1);
    }
  }

  // ---- placing with a split ----

  /** `h'` is what splitting page `k` makes, `ps'` the chain then; the index `idx` went to `at`. The
      back links are right if and only if no successor was stranded. */
  ghost predicate SplitOn(h: Heap, ps: seq<Ptr>, k: int, idx: nat, h': Heap, ps': seq<Ptr>, at: SplitIndex)
    requires 0 <= k < |ps| && ForwardLinked(h, ps)
  {
    && ForwardLinked(h', ps') && BackwardExcept(h'.mem, ps', k + 2)
    && (Backward(h'.mem, ps') <==> !StrandsSuccessor(h.mem, ps[k]))
    && SplitKeeps(Contents(h.mem, ps), k, idx, Contents(h'.mem, ps'), at)
    && ps[k] in h'.mem && PageOf(at, k) < |ps'|
    && ps'[PageOf(at, k)] == (match at case Prev(_) => h.mem[ps[k]].prev case This(_) => ps[k] case Next(_) => h'.mem[ps[k]].next)
  }

  lemma SplitPrev(h: Heap, ps: seq<Ptr>, k: int, idx: nat)
    requires Linked(h, ps) && 0 <= k < |ps| && h.mem[ps[k]].len == CAPACITY && idx <= CAPACITY && HasRoom(h.mem, h.mem[ps[k]].prev)
    ensures SplitOn(h, ps, k, idx, Split(h, ps[k]), ps, SplitIdx(h, ps[k], idx))
  {
    var m, page := h.mem, h.mem[ps[k]];
    var was: seq<seq<Region>> := Contents(m, ps);
    Neighbours(m, ps, k);
    var long, short := m[page.prev].Append(page.Live()[..SPLIT_POINT]), page.DropFront(SPLIT_POINT);
    assert long.Live() == was[k - 1] + was[k][..SPLIT_POINT] && short.Live() == was[k][SPLIT_POINT..];
    EditPair(m, ps, k - 1, long, short);
    SplitPrevKeeps(was, k, idx);
  }

  lemma SplitNext(h: Heap, ps: seq<Ptr>, k: int, idx: nat)
    requires Linked(h, ps) && 0 <= k < |ps| && h.mem[ps[k]].len == CAPACITY && idx <= CAPACITY
    requires !HasRoom(h.mem, h.mem[ps[k]].prev) && HasRoom(h.mem, h.mem[ps[k]].next)
    ensures SplitOn(h, ps, k, idx, Split(h, ps[k]), ps, SplitIdx(h, ps[k], idx))
  {
    var m, page := h.mem, h.mem[ps[k]];
    Neighbours(m, ps, k);
    EditPair(m, ps, k, page.Truncate(SPLIT_POINT), m[page.next].Prepend(page.Live()[SPLIT_POINT..]));
    assert m[page.next := m[page.next].Prepend(page.Live()[SPLIT_POINT..])][ps[k] := page.Truncate(SPLIT_POINT)]
        == m[ps[k] := page.Truncate(SPLIT_POINT)][page.next := m[page.next].Prepend(page.Live()[SPLIT_POINT..])];
    SplitNextKeeps(Contents(m, ps), k, idx);
  }

  /** Neither neighbour has room, so half of the page goes to a new one. */
  predicate TakesPage(m: Memory, p: Ptr)
    requires p in m
  {
    !HasRoom(m, m[p].prev) && !HasRoom(m, m[p].next)
  }

  /** The new page, linked behind page `k`, holds the back half. */
  lemma SplitNew(h: Heap, ps: seq<Ptr>, k: int, idx: nat) returns (ps': seq<Ptr>)
    requires Linked(h, ps) && 0 <= k < |ps| && h.mem[ps[k]].len == CAPACITY && idx <= CAPACITY
    requires TakesPage(h.mem, ps[k])
    ensures SplitOn(h, ps, k, idx, Split(h, ps[k]), ps', SplitIdx(h, ps[k], idx)) && ps' == InsertAfter(ps, k, h.spare)
  {
    var m, page := h.mem, h.mem[ps[k]];
    var back := page.Live()[SPLIT_POINT..];
    assert EmptyPage().(prev := ps[k], next := page.next).Live() == [];
    var e := EmptyPage().(prev := ps[k], next := page.next).Prepend(back);
    assert e.Live() == back;
    ps' := InsertAfter(ps, k, h.spare);
    HalfMovesOut(m, ps, k, h.spare, e, page.Truncate(SPLIT_POINT));
    HalvesAreCut(Contents(m, ps), k, page.Live()[..SPLIT_POINT], back);
    assert Contents(m, ps)[k] == page.Live();
    SplitNewKeeps(Contents(m, ps), k, idx);
    Links(m, ps, k);
  }

  /** Memory after page `k` was cut to `page` and a page `e` was linked behind it. */
  lemma HalfMovesOut(m: Memory, ps: seq<Ptr>, k: int, n: Ptr, e: Page, page: Page)
    requires Chain(m, ps) && 0 <= k < |ps| && n !in m && n != NULL && e.Shape() && e.prev == ps[k] && e.next == m[ps[k]].next
    requires page.Shape() && page.SameLinks(m[ps[k]])
    ensures var m', qs := m[n := e][ps[k] := page.(next := n)], InsertAfter(ps, k, n);
            && Pages(m', qs) && Forward(m', qs) && BackwardExcept(m', qs, k + 2)
            && (Backward(m', qs) <==> m[ps[k]].next == NULL)
            && Contents(m', qs) == (Contents(m, ps)[..k + 1] + [e.Live()] + Contents(m, ps)[k + 1..])[k := page.Live()]
  {
    var qs, m1 := InsertAfter(ps, k, n), WithNewPage(m, ps, k, n, e);
    LinkNewPage(m, ps, k, n, e);
    NewPageContents(m, ps, k, n, e);
    EditPage(m1, qs, k, page.(next := n));
    var m2 := m1[ps[k] := page.(next := n)];
    assert m2 == m[n := e][ps[k] := page.(next := n)];
    TransferLinks(m1, m2, qs, k + 2);
    Links(m, ps, k);
    StrandedOrNot(m2, qs, k, ps[k], n);
  }

  lemma StrandedOrNot(m: Memory, qs: seq<Ptr>, k: int, p: Ptr, n: Ptr)
    requires Pages(m, qs) && BackwardExcept(m, qs, k + 2) && 0 <= k && k + 1 < |qs| && qs[k] == p && qs[k + 1] == n
    requires k + 2 < |qs| ==> m[qs[k + 2]].prev == p
    ensures Backward(m, qs) <==> k + 2 == |qs|
  {
    if k + 2 < |qs| {
      assert m[qs[k + 2]].prev != qs[k + 1];
    }
  }

  lemma HalvesAreCut(cs: seq<seq<Region>>, k: int, front: seq<Region>, back: seq<Region>)
    requires 0 <= k < |cs|
    ensures (cs[..k + 1] + [back] + cs[k + 1..])[k := front] == (cs[..k + 1] + [[]] + cs[k + 1..])[k := front][k + 1 := back + []]
  {
    assert back + [] == back;
  }

  lemma SplitCoded(h: Heap, ps: seq<Ptr>, k: int, idx: nat) returns (ps': seq<Ptr>)
    requires Linked(h, ps) && 0 <= k < |ps| && h.mem[ps[k]].len == CAPACITY && idx <= CAPACITY
    ensures SplitOn(h, ps, k, idx, Split(h, ps[k]), ps', SplitIdx(h, ps[k], idx))
    ensures ps' == if TakesPage(h.mem, ps[k]) then InsertAfter(ps, k, h.spare) else ps
  {
    ps' := ps;
    if HasRoom(h.mem, h.mem[ps[k]].prev) {
      SplitPrev(h, ps, k, idx);
    } else if HasRoom(h.mem, h.mem[ps[k]].next) {
      SplitNext(h, ps, k, idx);
    } else {
      ps' := SplitNew(h, ps, k, idx);
    }
  }

  /** The region goes into the page that its index names, which has room. What comes of it touches
      nothing. */
  lemma InsertAfterSplit(h: Heap, ps: seq<Ptr>, k: int, i: nat, r: Region, h': Heap, ps': seq<Ptr>, at: SplitIndex) returns (t: Spot)
    requires Linked(h, ps) && 0 <= k < |ps| && FreeSpot(Contents(h.mem, ps), k, Missing(i), r)
    requires i <= |Contents(h.mem, ps)[k]| && (i < |Contents(h.mem, ps)[k]| ==> Contents(h.mem, ps)[k][i].start != r.end)
    requires SplitOn(h, ps, k, i, h', ps', at)
    ensures InsertAt(h', ps'[PageOf(at, k)], at.idx, r) == Some(t) && PlacedOn(h, ps, r, t, ps', PageOf(at, k))
    ensures Coalesced(AllRegions(t.heap.mem, ps'))
    ensures Backward(t.heap.mem, ps') <==> !StrandsSuccessor(h.mem, ps[k])
  {
    var j := PageOf(at, k);
    var q := ps'[j];
    var now := Contents(h'.mem, ps');
    assert now[j] == h'.mem[q].Live();
    t := InsertAt(h', q, at.idx, r).value;
    PlaceAlone(Contents(h.mem, ps), k, i, r, now, j, at.idx);
    EditKeeps(h', ps', j, h'.mem[q].InsertRegion(r, at.idx), k + 2);
    BackOfSplit(h'.mem, ps', k, j);
  }

  /** The page that a region goes into is none that the split strands. */
  lemma BackOfSplit(m: Memory, ps: seq<Ptr>, k: int, j: int)
    requires Pages(m, ps) && BackwardExcept(m, ps, k + 2) && 0 <= j < |ps| && j <= k + 1
    ensures m[ps[j]].prev == At(ps, j - 1)
  {
  }

  /** Every way of placing a region on a well-linked chain. */
  lemma PlaceCoded(h: Heap, ps: seq<Ptr>, k: int, s: Search, r: Region) returns (t: Spot, ps': seq<Ptr>, k': int)
    requires Linked(h, ps) && 0 <= k < |ps| && FreeSpot(Contents(h.mem, ps), k, s, r)
    requires if s.Found? then s.i < h.mem[ps[k]].len else s.i <= h.mem[ps[k]].len
    ensures Place(h, ps[k], s, r) == Some(t) && PlacedOn(h, ps, r, t, ps', k')
    ensures Backward(t.heap.mem, ps') <==> !(Splits(h.mem[ps[k]], s, r) && StrandsSuccessor(h.mem, ps[k]))
    ensures Backward(t.heap.mem, ps') || Coalesced(AllRegions(t.heap.mem, ps'))
    ensures ps' == if Splits(h.mem[ps[k]], s, r) && TakesPage(h.mem, ps[k]) then InsertAfter(ps, k, h.spare) else ps
  {
    if Splits(h.mem[ps[k]], s, r) {
      assert Contents(h.mem, ps)[k] == h.mem[ps[k]].Live();
      ps' := SplitCoded(h, ps, k, s.i);
      k' := PageOf(SplitIdx(h, ps[k], s.i), k);
      t := InsertAfterSplit(h, ps, k, s.i, r, Split(h, ps[k]), ps', SplitIdx(h, ps[k], s.i));
    } else {
      ps', k' := ps, k;
      if s.Found? {
        t := PlaceFound(h, ps, k, s.i, r);
      } else {
        t := PlaceMissing(h, ps, k, s.i, r);
      }
    }
  }

  // ---- coalescing ----

  /** Where no regions touch, nothing is merged. */
  lemma NothingMerged(m: Memory, ps: seq<Ptr>, j: int, steps: nat)
    requires Pages(m, ps) && Forward(m, ps) && Shaped(m) && 0 <= j < |ps| && steps > 0 && Coalesced(AllRegions(m, ps))
    requires j + 1 < |ps| && Contents(m, ps)[j] != [] ==> Contents(m, ps)[j + 1] != []
    ensures TryCoalesceAt(m, ps[j], steps) == Some(Merge(m, false))
  {
    var cs := Contents(m, ps);
    assert cs[j] == m[ps[j]].Live();
    if m[ps[j]].len > 0 && j + 1 < |ps| {
      assert cs[j + 1] == m[ps[j + 1]].Live();
      MergeAtCut(cs, j);
    }
  }

  /** So the attempts that end a free do nothing then. */
  lemma NothingAround(h: Heap, ps: seq<Ptr>, k: int, idx: nat)
    requires ForwardLinked(h, ps) && 0 <= k < |ps| && h.mem[ps[k]].prev == At(ps, k - 1) && Coalesced(AllRegions(h.mem, ps))
    ensures CoalesceAround(Spot(h, ps[k], idx)) == Some(h)
  {
    PagesFit(h.mem, ps);
    assert h.(mem := h.mem) == h;
    NothingMerged(h.mem, ps, k, |h.mem|);
    if k > 0 {
      NothingMerged(h.mem, ps, k - 1, |h.mem|);
    }
  }

  /** Joining two pages keeps the chain of the others and the list. */
  lemma CombineCoded(m: Memory, ps: seq<Ptr>, k: int) returns (m': Memory)
    requires Chain(m, ps) && Shaped(m) && NULL !in m && 0 <= k && k + 1 < |ps| && m[ps[k]].len + m[ps[k + 1]].len <= CAPACITY
    ensures CombinePages(m, ps[k], ps[k + 1]) == Some(m') && m'.Keys <= m.Keys
    ensures Chain(m', DropAt(ps, k + 1)) && AllRegions(m', DropAt(ps, k + 1)) == AllRegions(m, ps)
    ensures FullExcept(Contents(m, ps), k) || FullExcept(Contents(m, ps), k + 1) ==> FullExcept(Contents(m', DropAt(ps, k + 1)), k)
  {
    var page;
    m', page := UnlinksNext(m, ps, k);
    UnlinkPage(m, ps, k, page, m');
    UnlinkContents(m, ps, k, page, m');
    Joined(Contents(m, ps), k, Contents(m', DropAt(ps, k + 1)));
  }

  lemma UnlinksNext(m: Memory, ps: seq<Ptr>, k: int) returns (m': Memory, page: Page)
    requires Chain(m, ps) && Shaped(m) && NULL !in m && 0 <= k && k + 1 < |ps| && m[ps[k]].len + m[ps[k + 1]].len <= CAPACITY
    ensures CombinePages(m, ps[k], ps[k + 1]) == Some(m') && m'.Keys <= m.Keys
    ensures page.Shape() && page.prev == m[ps[k]].prev && page.next == m[ps[k + 1]].next && Unlinked(m, ps, k, page, m')
    ensures page.Live() == Contents(m, ps)[k] + Contents(m, ps)[k + 1]
  {
    Links(m, ps, k);
    Links(m, ps, k + 1);
    m', page := Combines(m, ps[k], ps[k + 1]);
    assert page.Live() == m[ps[k]].Live() + m[ps[k + 1]].Live();
  }

  /** Joining two pages, link by link. */
  lemma Combines(m: Memory, p: Ptr, q: Ptr) returns (m': Memory, page: Page)
    requires Shaped(m) && NULL !in m && p in m && q in m && p != q && m[p].next == q && m[p].len + m[q].len <= CAPACITY
    requires m[q].next == NULL || (m[q].next in m && m[q].next != p && m[q].next != q)
    ensures CombinePages(m, p, q) == Some(m') && m'.Keys == m.Keys - {q} && m'[p] == page
    ensures m[q].next != NULL ==> m'[m[q].next] == m[m[q].next].(prev := p)
    ensures forall x :: x in m' && x != p && x != m[q].next ==> m'[x] == m[x]
    ensures page.Shape() && page.prev == m[p].prev && page.next == m[q].next && page.Live() == m[p].Live() + m[q].Live()
  {
    m' := CombinePages(m, p, q).value;
    page := m[p].Append(m[q].Live()).(next := m[q].next);
    assert page.Live() == m[p].Append(m[q].Live()).Live();
  }

  lemma Joined(cs: seq<seq<Region>>, k: int, ds: seq<seq<Region>>)
    requires 0 <= k && k + 1 < |cs| && ds == cs[..k] + [cs[k] + cs[k + 1]] + cs[k + 2..]
    ensures Flatten(ds) == Flatten(cs)
    ensures FullExcept(cs, k) || FullExcept(cs, k + 1) ==> FullExcept(ds, k)
  {
    JoinChunks(cs, k);
    if FullExcept(cs, k) || FullExcept(cs, k + 1) {
      JoinKeepsFull(cs, k);
    }
  }

  /** Combining a page with its neighbours while they are small. */
  lemma {:induction false} CombinesSmall(m: Memory, ps: seq<Ptr>, k: int) returns (m': Memory, ps': seq<Ptr>)
    requires Chain(m, ps) && Shaped(m) && NULL !in m && 0 <= k < |ps| && FullExcept(Contents(m, ps), k)
    ensures CombineIfSmall(m, ps[k]) == Some(m') && m'.Keys <= m.Keys
    ensures Chain(m', ps') && Full(Contents(m', ps')) && AllRegions(m', ps') == AllRegions(m, ps) && At(ps', 0) == At(ps, 0)
    decreases |ps|
  {
    Links(m, ps, k);
    var p := ps[k];
    if m[p].prev in m && ShouldCombine(m[m[p].prev], m[p]) {
      var m1 := CombineCoded(m, ps, k - 1);
      m', ps' := CombinesSmall(m1, DropAt(ps, k), k - 1);
    } else if m[p].next in m && ShouldCombine(m[p], m[m[p].next]) {
      var m1 := CombineCoded(m, ps, k);
      m', ps' := CombinesSmall(m1, DropAt(ps, k + 1), k);
    } else {
      m', ps' := m, ps;
      assert Contents(m, ps)[k] == m[p].Live();
    }
  }

  /** The last region of page `p` taken into the first one of the next page. */
  ghost predicate MovedNow(m: Memory, p: Ptr, m2: Memory) {
    && p in m && m[p].next in m && m[p].len > 0
    && m[p].Shape() && |m[m[p].next].regions| > 0
    && var grown := m[m[p].next].(regions := m[m[p].next].regions[0 := m[m[p].next].regions[0].(start := m[p].regions[m[p].len - 1].start)]);
    var m1 := m[m[p].next := grown];
    m1[p].Shape() && m1[p].len > 0 && m2 == m1[p := m1[p].Truncate(m1[p].len - 1)]
  }

  ghost predicate Moved(m: Memory, p: Ptr, m2: Memory) {
    forall n: nat {:trigger Look(n)} :: Look(n) ==> MovedNow(m, p, m2)
  }

  lemma MovedInto(m: Memory, ps: seq<Ptr>, k: int) returns (m2: Memory)
    requires Chain(m, ps) && Shaped(m) && 0 <= k && k + 1 < |ps| && m[ps[k]].len > 0 && m[ps[k + 1]].len > 0
    ensures Moved(m, ps[k], m2)
    ensures Chain(m2, ps) && Shaped(m2) && m2.Keys == m.Keys
    ensures Contents(m, ps)[k] != [] && Contents(m, ps)[k + 1] != []
    ensures Contents(m2, ps) == MergedAtCut(Contents(m, ps), k)
  {
    var p, q, cs := ps[k], ps[k + 1], Contents(m, ps);
    var y := m[q].regions[0].(start := m[p].regions[m[p].len - 1].start);
    var short, grown := m[p].Truncate(m[p].len - 1), m[q].SetRegion(0, y);
    assert cs[k] == m[p].Live() && cs[k + 1] == m[q].Live();
    assert grown.Live() == [y] + cs[k + 1][1..];
    assert short.Live() == cs[k][..|cs[k]| - 1];
    EditPair(m, ps, k, short, grown);
    m2 := m[q := grown][p := short];
    assert m2 == m[p := short][q := grown];
    Links(m, ps, k);
  }

  /** What an attempt comes to when the two regions touch. */
  lemma Attempt(m: Memory, p: Ptr, steps: nat, m2: Memory, m': Memory)
    requires Shaped(m) && Shaped(m2) && steps > 0 && Moved(m, p, m2) && p in m && m[p].next in m && m[p].next != NULL && m[p].len > 0
    requires m[p].regions[m[p].len - 1].end == m[m[p].next].regions[0].start
    requires TryCoalesceAt(m2, m[p].next, steps - 1) == Some(Merge(m2, false))
    requires CombineIfSmall(m2, p) == Some(m')
    ensures TryCoalesceAt(m, p, steps) == Some(Merge(m', true))
  {
    assert Look(0);
  }

  /** The one place where a freed region may touch the page before: the two regions are merged. */
  lemma MergesBack(m: Memory, ps: seq<Ptr>, k: int) returns (m': Memory, ps': seq<Ptr>)
    requires Chain(m, ps) && Full(Contents(m, ps)) && Shaped(m) && NULL !in m && 0 < k < |ps|
    requires TouchesOnlyAt(AllRegions(m, ps), Off(Contents(m, ps), k))
    requires Contents(m, ps)[k - 1] != [] && Contents(m, ps)[k] != []
    requires var cs := Contents(m, ps); cs[k - 1][|cs[k - 1]| - 1].end == cs[k][0].start
    ensures TryCoalesceAt(m, ps[k - 1], |m|) == Some(Merge(m', true)) && m'.Keys <= m.Keys
    ensures Chain(m', ps') && Full(Contents(m', ps')) && At(ps', 0) == At(ps, 0) && Shaped(m')
    ensures Coalesced(AllRegions(m', ps')) && FreeAddrs(AllRegions(m', ps')) == FreeAddrs(AllRegions(m, ps))
  {
    CoalesceAtCut(Contents(m, ps), k - 1);
    m', ps' := MergesMoved(m, ps, k, Flatten(MergedAtCut(Contents(m, ps), k - 1)));
  }

  lemma MergesMoved(m: Memory, ps: seq<Ptr>, k: int, out: seq<Region>) returns (m': Memory, ps': seq<Ptr>)
    requires Chain(m, ps) && Shaped(m) && NULL !in m && 0 < k < |ps|
    requires Contents(m, ps)[k - 1] != [] && Contents(m, ps)[k] != []
    requires var cs := Contents(m, ps); cs[k - 1][|cs[k - 1]| - 1].end == cs[k][0].start
    requires var ds := MergedAtCut(Contents(m, ps), k - 1); FullExcept(ds, k - 1) && out == Flatten(ds) && Coalesced(out)
    ensures TryCoalesceAt(m, ps[k - 1], |m|) == Some(Merge(m', true)) && m'.Keys <= m.Keys
    ensures Chain(m', ps') && Full(Contents(m', ps')) && At(ps', 0) == At(ps, 0) && Shaped(m') && AllRegions(m', ps') == out
  {
    Touching(m, ps, k);
    var m2 := MovedInto(m, ps, k - 1);
    m', ps' := SettlesMoved(m2, ps, k, |m| - 1);
    Attempt(m, ps[k - 1], |m|, m2, m');
  }

  /** After the move nothing touches the other end of a page, and a small page is combined. */
  lemma SettlesMoved(m: Memory, ps: seq<Ptr>, k: int, steps: nat) returns (m': Memory, ps': seq<Ptr>)
    requires Chain(m, ps) && Shaped(m) && NULL !in m && 0 < k < |ps| && steps > 0
    requires FullExcept(Contents(m, ps), k - 1) && Coalesced(AllRegions(m, ps))
    ensures TryCoalesceAt(m, ps[k], steps) == Some(Merge(m, false)) && CombineIfSmall(m, ps[k - 1]) == Some(m') && m'.Keys <= m.Keys
    ensures Chain(m', ps') && Full(Contents(m', ps')) && At(ps', 0) == At(ps, 0) && AllRegions(m', ps') == AllRegions(m, ps)
  {
    NothingMerged(m, ps, k, steps);
    m', ps' := CombinesSmall(m, ps, k - 1);
  }

  lemma Touching(m: Memory, ps: seq<Ptr>, k: int)
    requires Chain(m, ps) && 0 < k < |ps| && Contents(m, ps)[k - 1] != [] && Contents(m, ps)[k] != []
    requires var cs := Contents(m, ps); cs[k - 1][|cs[k - 1]| - 1].end == cs[k][0].start
    ensures |m| > 1 && m[ps[k - 1]].next == ps[k] && m[ps[k - 1]].len > 0 && m[ps[k]].len > 0
    ensures m[ps[k - 1]].regions[m[ps[k - 1]].len - 1].end == m[ps[k]].regions[0].start
  {
    PagesFit(m, ps);
    Links(m, ps, k - 1);
    assert Contents(m, ps)[k - 1] == m[ps[k - 1]].Live() && Contents(m, ps)[k] == m[ps[k]].Live();
  }

  /** The attempts after a region was placed leave the list coalesced and the back links as they
      were. */
  lemma CoalesceCoded(was: seq<seq<Region>>, r: Region, t: Spot, ps: seq<Ptr>, k: int) returns (h': Heap, ps': seq<Ptr>)
    requires ForwardLinked(t.heap, ps) && 0 <= k < |ps| && ps[k] == t.page && t.heap.mem[t.page].prev == At(ps, k - 1)
    requires Placed(was, r, Contents(t.heap.mem, ps), k, t.idx)
    requires Backward(t.heap.mem, ps) || Coalesced(AllRegions(t.heap.mem, ps))
    ensures CoalesceAround(t) == Some(h') && ForwardLinked(h', ps') && Coalesced(AllRegions(h'.mem, ps'))
    ensures FreeAddrs(AllRegions(h'.mem, ps')) == FreeAddrs(Flatten(was)) + Addrs(r)
    ensures Backward(h'.mem, ps') <==> Backward(t.heap.mem, ps)
    ensures Coalesced(AllRegions(t.heap.mem, ps)) ==> h' == t.heap && ps' == ps
  {
    assert Look(0);
    var m: Memory, cs: seq<seq<Region>> := t.heap.mem, Contents(t.heap.mem, ps);
    if k > 0 && t.idx == 0 {
      assert cs[k - 1] != [] && cs[k] != [];
    }
    if k > 0 && t.idx == 0 && cs[k - 1][|cs[k - 1]| - 1].end == cs[k][0].start {
      TouchNotCoalesced(cs, k - 1);
      var m';
      m', ps' := MergesBack(m, ps, k);
      h' := t.heap.(mem := m');
    } else {
      if k > 0 && t.idx == 0 {
        CoalescedUnlessCut(cs, k - 1);
      }
      NothingAround(t.heap, ps, k, t.idx);
      h', ps' := t.heap, ps;
    }
  }

  // ---- freeing ----

  /** Whether freeing `r` splits a page and puts a new one before a successor. */
  predicate SplitStrands(h: Heap, r: Region) {
    && PageAligned(r) && r.start < r.end && h.head != NULL
    && match FindPage(h.mem, h.head, r, |h.mem|)
       case None => false
       case Some(p) => p in h.mem && Splits(h.mem[p], SearchEnds(h.mem[p].Live(), r.start), r) && StrandsSuccessor(h.mem, p)
  }

  lemma FreeOnCoded(h: Heap, ps: seq<Ptr>, r: Region) returns (h': Heap, ps': seq<Ptr>)
    requires Linked(h, ps) && ps != [] && Coalesced(AllRegions(h.mem, ps)) && Proper(r)
    ensures FreeOn(h, r).Some? <==> Addrs(r) !! FreeAddrs(AllRegions(h.mem, ps))
    ensures FreeOn(h, r).Some? ==>
              && FreeOn(h, r) == Some(h') && ForwardLinked(h', ps') && Coalesced(AllRegions(h'.mem, ps'))
              && FreeAddrs(AllRegions(h'.mem, ps')) == FreeAddrs(AllRegions(h.mem, ps)) + Addrs(r)
              && (Backward(h'.mem, ps') <==> !SplitStrands(h, r))
  {
    var k, s := FindsSpot(h.mem, ps, r);
    h', ps' := h, ps;
    if OverlapSeen(h.mem, h.mem[ps[k]], s, r) == Some(false) {
      h', ps' := FreeAtSpot(h, ps, k, s, r);
    }
  }

  lemma FreeAtSpot(h: Heap, ps: seq<Ptr>, k: int, s: Search, r: Region) returns (h': Heap, ps': seq<Ptr>)
    requires Linked(h, ps) && 0 <= k < |ps| && FreeSpot(Contents(h.mem, ps), k, s, r)
    requires if s.Found? then s.i < h.mem[ps[k]].len else s.i <= h.mem[ps[k]].len
    ensures Place(h, ps[k], s, r).Some? && CoalesceAround(Place(h, ps[k], s, r).value) == Some(h')
    ensures ForwardLinked(h', ps') && Coalesced(AllRegions(h'.mem, ps'))
    ensures FreeAddrs(AllRegions(h'.mem, ps')) == FreeAddrs(AllRegions(h.mem, ps)) + Addrs(r)
    ensures Backward(h'.mem, ps') <==> !(Splits(h.mem[ps[k]], s, r) && StrandsSuccessor(h.mem, ps[k]))
  {
    var t, qs, j := PlaceCoded(h, ps, k, s, r);
    h', ps' := CoalesceCoded(Contents(h.mem, ps), r, t, qs, j);
  }

  /** The walk, the search and the check of the code find the spot for `r`, or that it overlaps. */
  lemma FindsSpot(m: Memory, ps: seq<Ptr>, r: Region) returns (k: int, s: Search)
    requires Chain(m, ps) && Full(Contents(m, ps)) && ps != [] && Coalesced(AllRegions(m, ps)) && Proper(r)
    ensures 0 <= k < |ps| && FindPage(m, ps[0], r, |m|) == Some(ps[k])
    ensures s == SearchEnds(m[ps[k]].Live(), r.start)
    ensures if s.Found? then s.i < m[ps[k]].len else s.i <= m[ps[k]].len
    ensures OverlapSeen(m, m[ps[k]], s, r) == Some(!(Addrs(r) !! FreeAddrs(AllRegions(m, ps))))
    ensures Addrs(r) !! FreeAddrs(AllRegions(m, ps)) ==> FreeSpot(Contents(m, ps), k, s, r)
  {
    var cs := Contents(m, ps);
    PagesFit(m, ps);
    k := WalkEnds(m, ps, 0, r, |m|);
    SearchCoded(m, ps, k, r);
    s := SearchEnds(m[ps[k]].Live(), r.start);
    OverlapCoded(m, ps, k, s, r);
    AlreadyFreeIsOverlap(cs, k, s, r);
  }

  function WithFirstPage(h: Heap): Heap {
    Heap(h.spare, h.mem[h.spare := EmptyPage()], h.spare + 1)
  }

  lemma FirstLinked(h: Heap, r: Region)
    requires Linked(h, [])
    ensures Linked(WithFirstPage(h), [h.spare]) && AllRegions(WithFirstPage(h).mem, [h.spare]) == []
    ensures !SplitStrands(WithFirstPage(h), r)
  {
    SinglePage(WithFirstPage(h).mem, h.spare);
  }

  /** Freeing as coded, on a chain that is well linked and a coalesced list: it succeeds exactly
      when the region is aligned and none of it is free, and then adds exactly its addresses. The
      chain stays well linked if and only if no split strands a successor. */
  lemma FreeCoded(h: Heap, ps: seq<Ptr>, r: Region) returns (h': Heap, ps': seq<Ptr>)
    requires Linked(h, ps) && Coalesced(AllRegions(h.mem, ps)) && r.start <= r.end
    ensures FreeRegion(h, r).Some? <==> PageAligned(r) && Addrs(r) !! FreeAddrs(AllRegions(h.mem, ps))
    ensures FreeRegion(h, r).Some? ==>
              && FreeRegion(h, r) == Some(h') && ForwardLinked(h', ps') && Coalesced(AllRegions(h'.mem, ps'))
              && FreeAddrs(AllRegions(h'.mem, ps')) == FreeAddrs(AllRegions(h.mem, ps)) + Addrs(r)
              && (Linked(h', ps') <==> !SplitStrands(h, r))
  {
    h', ps' := h, ps;
    if PageAligned(r) && r.start < r.end {
      if h.head == NULL {
        FirstLinked(h, r);
        h', ps' := FreeOnCoded(WithFirstPage(h), [h.spare], r);
      } else {
        h', ps' := FreeOnCoded(h, ps, r);
      }
    }
  }

  // ---- freeing in ascending order ----

  /** The pages that hold `n` regions freed in ascending order, with gaps between them: every page
      but the last ends up half full. */
  function PagesFor(n: nat): nat {
    if n == 0 then 0 else if n <= CAPACITY then 1 else 1 + PagesFor(n - SPLIT_POINT)
  }

  lemma {:induction false} PagesForIs(n: nat, k: nat)
    requires k > 0 && SPLIT_POINT * (k - 1) < n
    requires if k == 1 then n <= CAPACITY else SPLIT_POINT < n - SPLIT_POINT * (k - 1) <= CAPACITY
    ensures PagesFor(n) == k
    decreases k
  {
    if k > 1 {
      PagesForIs(n - SPLIT_POINT, k - 1);
    }
  }

  ghost predicate AllBefore(rs: seq<Region>, a: int) {
    forall i :: 0 <= i < |rs| ==> rs[i].end < a
  }

  predicate EndBefore(rs: seq<Region>, i: int, a: int) {
    0 <= i < |rs| ==> rs[i].end < a
  }

  lemma NextBefore(cs: seq<seq<Region>>, k: int, a: int)
    requires 0 <= k < |cs| && cs[k] != [] && Coalesced(Flatten(cs)) && AllBefore(Flatten(cs), a)
    ensures cs[k][0].start < a
  {
    FlattenAt(cs, k, 0);
    assert Proper(Flatten(cs)[Off(cs, k)]);
  }

  /** Behind all other regions the code finds the last page and the position at its end. */
  lemma FindsEnd(cs: seq<seq<Region>>, k: int, s: Search, r: Region)
    requires FreeSpot(cs, k, s, r) && AllBefore(Flatten(cs), r.start)
    ensures 0 <= k < |cs| && k == |cs| - 1 && s == Missing(|cs[k]|)
  {
    assert Look(0);
    if k + 1 < |cs| {
      NextBefore(cs, k + 1, r.start);
    }
    forall i | 0 <= i < |cs[k]|
      ensures cs[k][i].end < r.start
    {
      FlattenAt(cs, k, i);
      assert Flatten(cs)[Off(cs, k) + i].end < r.start;
    }
    assert EndBefore(cs[k], s.i, r.start);
  }

  /** How many regions the pages of a chain hold. */
  function Lens(m: Memory, ps: seq<Ptr>): (lens: seq<nat>)
    ensures |lens| == |ps| && forall i :: 0 <= i < |ps| ==> lens[i] == LenAt(m, ps[i])
  {
    seq(|ps|, i requires 0 <= i < |ps| => LenAt(m, ps[i]))
  }

  function LenAt(m: Memory, p: Ptr): nat {
    if p in m then m[p].len else 0
  }

  /** The same after one more region at the end. */
  function OneMoreAtEnd(lens: seq<nat>): seq<nat>
    requires lens != []
  {
    var last := |lens| - 1;
    if lens[last] < CAPACITY then lens[..last] + [lens[last] + 1] else lens[..last] + [SPLIT_POINT, SPLIT_POINT + 1]
  }

  lemma PlacedLast(was: seq<seq<Region>>, r: Region, now: seq<seq<Region>>, k: int, idx: nat)
    requires Placed(was, r, now, k, idx) && (idx > 0 || k == 0)
    ensures Coalesced(Flatten(now))
  {
    assert Look(0);
  }

  lemma PlaceAtEnd(h: Heap, p: Ptr, r: Region, t: Spot)
    requires Shaped(h.mem) && p in h.mem && h.mem[p].next == NULL && TakesPage(h.mem, p) && h.spare !in h.mem
    requires Place(h, p, Missing(h.mem[p].len), r) == Some(t)
    ensures forall q :: q in h.mem && q != p ==> LenAt(t.heap.mem, q) == LenAt(h.mem, q)
    ensures if h.mem[p].len < CAPACITY then
              t.idx == h.mem[p].len && t.heap.spare == h.spare && LenAt(t.heap.mem, p) == h.mem[p].len + 1
            else
              && t.idx == SPLIT_POINT && t.heap.spare == h.spare + 1
              && LenAt(t.heap.mem, p) == SPLIT_POINT && LenAt(t.heap.mem, h.spare) == SPLIT_POINT + 1
  {
    if h.mem[p].len == CAPACITY {
      NewPageLens(h, p);
    }
  }

  lemma NewPageLens(h: Heap, p: Ptr)
    requires Shaped(h.mem) && p in h.mem && h.mem[p].len == CAPACITY && TakesPage(h.mem, p) && h.spare !in h.mem
    ensures var h' := Split(h, p);
            && p in h'.mem && h.spare in h'.mem && h'.spare == h.spare + 1 && h'.mem[p].next == h.spare
            && h'.mem[p].len == SPLIT_POINT && h'.mem[h.spare].len == SPLIT_POINT
            && (forall q :: q in h.mem && q != p ==> q in h'.mem && h'.mem[q] == h.mem[q])
    ensures SplitIdx(h, p, CAPACITY) == Next(SPLIT_POINT)
  {
  }

  lemma EndPlaced(h: Heap, ps: seq<Ptr>, r: Region, k: int) returns (t: Spot, ps': seq<Ptr>, k': int)
    requires Linked(h, ps) && ps != [] && k == |ps| - 1 && TakesPage(h.mem, ps[k]) && h.mem[ps[k]].next == NULL
    requires FreeSpot(Contents(h.mem, ps), k, Missing(h.mem[ps[k]].len), r)
    ensures Place(h, ps[k], Missing(h.mem[ps[k]].len), r) == Some(t) && PlacedOn(h, ps, r, t, ps', k')
    ensures Linked(t.heap, ps') && Coalesced(AllRegions(t.heap.mem, ps'))
    ensures Lens(t.heap.mem, ps') == OneMoreAtEnd(Lens(h.mem, ps)) && t.heap.spare == h.spare + |ps'| - |ps|
  {
    t, ps', k' := PlaceCoded(h, ps, k, Missing(h.mem[ps[k]].len), r);
    PlaceAtEnd(h, ps[k], r, t);
    assert Contents(h.mem, ps)[k] == h.mem[ps[k]].Live();
    assert t.idx == 0 ==> k == 0 && ps' == ps;
    PlacedLast(Contents(h.mem, ps), r, Contents(t.heap.mem, ps'), k', t.idx);
    EndLens(h.mem, ps, t.heap.mem, ps', k, h.spare);
  }

  lemma EndLens(m: Memory, ps: seq<Ptr>, m': Memory, ps': seq<Ptr>, k: int, n: Ptr)
    requires Pages(m, ps) && 0 <= k == |ps| - 1 && (forall q :: q in m && q != ps[k] ==> LenAt(m', q) == LenAt(m, q))
    requires if m[ps[k]].len < CAPACITY then ps' == ps && LenAt(m', ps[k]) == m[ps[k]].len + 1
             else ps' == InsertAfter(ps, k, n) && LenAt(m', ps[k]) == SPLIT_POINT && LenAt(m', n) == SPLIT_POINT + 1
    ensures Lens(m', ps') == OneMoreAtEnd(Lens(m, ps))
  {
    forall i | 0 <= i < k
      ensures Lens(m', ps')[i] == Lens(m, ps)[i]
    {
    }
  }

  /** A region behind all others goes to the end of the last page. A full page keeps half of its
      regions, and a new one behind it takes the other half. */
  lemma AppendCoded(h: Heap, ps: seq<Ptr>, r: Region) returns (h': Heap, ps': seq<Ptr>)
    requires Linked(h, ps) && ps != [] && Coalesced(AllRegions(h.mem, ps)) && Proper(r)
    requires AllBefore(AllRegions(h.mem, ps), r.start) && Addrs(r) !! FreeAddrs(AllRegions(h.mem, ps))
    requires |ps| > 1 ==> h.mem[ps[|ps| - 2]].len == SPLIT_POINT
    ensures FreeOn(h, r) == Some(h') && Linked(h', ps') && Coalesced(AllRegions(h'.mem, ps'))
    ensures FreeAddrs(AllRegions(h'.mem, ps')) == FreeAddrs(AllRegions(h.mem, ps)) + Addrs(r)
    ensures Lens(h'.mem, ps') == OneMoreAtEnd(Lens(h.mem, ps)) && h'.spare == h.spare + |ps'| - |ps|
  {
    var k, s := FindsSpot(h.mem, ps, r);
    FindsEnd(Contents(h.mem, ps), k, s, r);
    assert Contents(h.mem, ps)[k] == h.mem[ps[k]].Live();
    Links(h.mem, ps, k);
    var t, qs, j := EndPlaced(h, ps, r, k);
    h', ps' := CoalesceCoded(Contents(h.mem, ps), r, t, qs, j);
  }

  /** What `n` regions freed in ascending order have made of the empty heap: in every page but the
      last half of what fits in one. */
  ghost predicate Ascending(h: Heap, ps: seq<Ptr>, n: nat) {
    Linked(h, ps) && |ps| == PagesFor(n) && h.spare == |ps| + 1 && (n > 0 ==> HalfFilled(Lens(h.mem, ps), n))
  }

  ghost predicate HalfFilled(lens: seq<nat>, n: nat) {
    var last := |lens| - 1;
    && lens != [] && (forall i :: 0 <= i < last ==> lens[i] == SPLIT_POINT)
    && lens[last] == n - SPLIT_POINT * last && lens[last] <= CAPACITY && (last > 0 ==> lens[last] > SPLIT_POINT)
  }

  lemma OneMoreHalfFilled(lens: seq<nat>, n: nat)
    requires HalfFilled(lens, n)
    ensures HalfFilled(OneMoreAtEnd(lens), n + 1) && |OneMoreAtEnd(lens)| == PagesFor(n + 1)
  {
    HalfFilledSize(OneMoreAtEnd(lens), n + 1);
  }

  lemma HalfFilledSize(lens: seq<nat>, n: nat)
    requires HalfFilled(lens, n) && n > 0
    ensures |lens| == PagesFor(n)
  {
    PagesForIs(n, |lens|);
  }

  /** Freeing one more region behind all others. */
  lemma FreeLast(h: Heap, ps: seq<Ptr>, n: nat, r: Region) returns (h': Heap, ps': seq<Ptr>)
    requires Ascending(h, ps, n) && Coalesced(AllRegions(h.mem, ps)) && Proper(r)
    requires AllBefore(AllRegions(h.mem, ps), r.start) && Addrs(r) !! FreeAddrs(AllRegions(h.mem, ps))
    ensures FreeRegion(h, r) == Some(h') && Ascending(h', ps', n + 1) && Coalesced(AllRegions(h'.mem, ps'))
    ensures FreeAddrs(AllRegions(h'.mem, ps')) == FreeAddrs(AllRegions(h.mem, ps)) + Addrs(r)
  {
    if n == 0 {
      FirstLinked(h, r);
      h', ps' := AppendCoded(WithFirstPage(h), [h.spare], r);
      assert Lens(WithFirstPage(h).mem, [h.spare]) == [0];
      OneMoreHalfFilled([0], 0);
    } else {
      h', ps' := AppendCoded(h, ps, r);
      OneMoreHalfFilled(Lens(h.mem, ps), n);
    }
  }

  /** The regions of a list freed one by one. */
  function FreeAll(h: Heap, rs: seq<Region>): (h': Option<Heap>)
    requires Shaped(h.mem) && forall r :: r in rs ==> r.start <= r.end
    ensures h'.Some? ==> Shaped(h'.value.mem)
  {
    if rs == [] then Some(h)
    else
      match FreeAll(h, rs[..|rs| - 1])
      case None => None
      case Some(h1) => FreeRegion(h1, rs[|rs| - 1])
  }

  lemma EmptyLinked()
    ensures Ascending(EMPTY, [], 0) && AllRegions(EMPTY.mem, []) == []
  {
  }

  lemma LastBehind(rs: seq<Region>, init: seq<Region>, r: Region)
    requires Coalesced(rs) && rs == init + [r]
    ensures Coalesced(init) && Proper(r) && AllBefore(init, r.start) && Addrs(r) !! FreeAddrs(init)
    ensures FreeAddrs(rs) == FreeAddrs(init) + Addrs(r)
  {
    var n := |init|;
    assert rs[n] == r && rs[..n] == rs[0..n] == init && rs[n..n + 1] == [r];
    assert Coalesced(rs[..n]);
    forall i | 0 <= i < |init|
      ensures init[i].end < r.start
    {
      assert rs[i] == init[i];
    }
    CoalescedIsOrdered(rs, 0);
    StretchesDisjoint(rs, 0, n, n, n + 1);
    FreeAddrsOne(r);
    FreeAddrsConcat(init, [r]);
  }

  /** A list of regions with gaps between them, freed in order from the empty heap as the code does:
      the list is stored in exactly that many pages, and no page is taken that is not kept. */
  lemma {:induction false} AscendingTakes(rs: seq<Region>) returns (h: Heap, ps: seq<Ptr>)
    requires Coalesced(rs)
    ensures FreeAll(EMPTY, rs) == Some(h) && Linked(h, ps) && AllRegions(h.mem, ps) == rs
    ensures |ps| == PagesFor(|rs|) && h.spare == |ps| + 1
    ensures Ascending(h, ps, |rs|)
  {
    if rs == [] {
      EmptyLinked();
      h, ps := EMPTY, [];
    } else {
      var n := |rs| - 1;
      var init, r := rs[..n], rs[n];
      LastBehind(rs, init, r);
      var h1, ps1 := AscendingTakes(init);
      h, ps := FreeLast(h1, ps1, n, r);
      CoalescedIsCanonical(AllRegions(h.mem, ps), rs);
    }
  }
}
