/** The pages of the virtual address allocator: fixed-capacity sorted blocks of free regions,
    linked in both directions. A page lives in a physical frame and is named by the address of
    that frame, so the memory holding the pages is a map from addresses to pages.
 */
module AllocPages {
  import opened Basics
  import opened Regions
  import opened Chunks

  type Ptr = nat
  const NULL: Ptr := 0

  /** Regions that fit in one page beside its header: (4096 - 24) / 16. */
  const CAPACITY: nat := 254
  const SPLIT_POINT: nat := CAPACITY / 2

  /** Overwrites `dst[at..]` with `src`. */
  function CopyInto<T>(dst: seq<T>, at: nat, src: seq<T>): (r: seq<T>)
    requires at + |src| <= |dst|
    ensures |r| == |dst| && r[at..at + |src|] == src
    ensures r[..at] == dst[..at] && r[at + |src|..] == dst[at + |src|..]
  {
    dst[..at] + src + dst[at + |src|..]
  }

  datatype Page = Page(prev: Ptr, next: Ptr, len: nat, regions: seq<Region>) {
    predicate Shape() {
      |regions| == CAPACITY && len <= CAPACITY
    }

    /** The regions in use; slots past `len` keep stale contents. */
    function Live(): seq<Region> {
      if len <= |regions| then regions[..len] else []
    }

    predicate SameLinks(p: Page) {
      prev == p.prev && next == p.next
    }

    function InsertRegion(region: Region, idx: nat): (r: Page)
      requires Shape() && len < CAPACITY && idx <= len
      ensures r.Shape() && SameLinks(r)
      ensures r.Live() == Live()[..idx] + [region] + Live()[idx..]
    {
      var moved := CopyInto(regions, idx + 1, regions[idx..len]);
      var r := this.(regions := moved[idx := region], len := len + 1);
      assert r.regions[idx + 1..r.len] == moved[idx + 1..r.len] == regions[idx..len];
      assert r.regions[..idx] == moved[..idx] == regions[..idx];
      assert r.Live() == r.regions[..idx] + [region] + r.regions[idx + 1..r.len];
      r
    }

    function RemoveRegion(idx: nat): (r: Page)
      requires Shape() && idx < len
      ensures r.Shape() && SameLinks(r)
      ensures r.Live() == Live()[..idx] + Live()[idx + 1..]
    {
      var r := this.(regions := CopyInto(regions, idx, regions[idx + 1..len]), len := len - 1);
      assert r.Live() == r.regions[..idx] + r.regions[idx..r.len];
      r
    }

    function SetRegion(idx: nat, region: Region): (r: Page)
      requires Shape() && idx < len
      ensures r.Shape() && SameLinks(r)
      ensures r.Live() == Live()[..idx] + [region] + Live()[idx + 1..]
    {
      this.(regions := regions[idx := region])
    }

    /** Region `idx` replaced by two. */
    function CutRegion(idx: nat, a: Region, b: Region): (r: Page)
      requires Shape() && idx < len < CAPACITY
      ensures r.Shape() && SameLinks(r)
      ensures r.Live() == Live()[..idx] + [a, b] + Live()[idx + 1..]
    {
      var p := SetRegion(idx, a);
      assert p.Live()[..idx + 1] == Live()[..idx] + [a];
      assert p.Live()[idx + 1..] == Live()[idx + 1..];
      p.InsertRegion(b, idx + 1)
    }

    /** Region `idx` grown over the gap to the next region, which is removed. */
    function JoinNext(idx: nat): (r: Page)
      requires Shape() && idx + 1 < len
      ensures r.Shape() && SameLinks(r)
      ensures r.Live() == Live()[..idx] + [Region(Live()[idx].start, Live()[idx + 1].end)] + Live()[idx + 2..]
    {
      SetRegion(idx, Region(regions[idx].start, regions[idx + 1].end)).RemoveRegion(idx + 1)
    }

    function Truncate(n: nat): (r: Page)
      requires Shape() && n <= len
      ensures r.Shape() && SameLinks(r) && r.Live() == Live()[..n]
    {
      this.(len := n)
    }

    /** Drops the first `n` regions, moving the others down. */
    function DropFront(n: nat): (r: Page)
      requires Shape() && n <= len
      ensures r.Shape() && SameLinks(r) && r.Live() == Live()[n..]
    {
      this.(regions := CopyInto(regions, 0, regions[n..len]), len := len - n)
    }

    function Append(rs: seq<Region>): (r: Page)
      requires Shape() && len + |rs| <= CAPACITY
      ensures r.Shape() && SameLinks(r) && r.Live() == Live() + rs
    {
      this.(regions := CopyInto(regions, len, rs), len := len + |rs|)
    }

    function Prepend(rs: seq<Region>): (r: Page)
      requires Shape() && len + |rs| <= CAPACITY
      ensures r.Shape() && SameLinks(r) && r.Live() == rs + Live()
    {
      var moved := CopyInto(regions, |rs|, regions[..len]);
      assert moved[|rs|..|rs| + len] == regions[..len];
      this.(regions := CopyInto(moved, 0, rs), len := len + |rs|)
    }
  }

  function EmptyPage(): (p: Page)
    ensures p.Shape() && p.Live() == []
  {
    Page(NULL, NULL, 0, seq(CAPACITY, _ => Region(PAGE_SIZE, PAGE_SIZE)))
  }

  type Memory = map<Ptr, Page>

  /** The page at index `i` of the chain, or null past either end. */
  function At(ps: seq<Ptr>, i: int): Ptr {
    if 0 <= i < |ps| then ps[i] else NULL
  }

  /** Distinct pages of the right shape. */
  ghost predicate Pages(m: Memory, ps: seq<Ptr>) {
    && (forall i :: 0 <= i < |ps| ==> ps[i] in m && ps[i] != NULL && m[ps[i]].Shape())
    && (forall i, j :: 0 <= i < j < |ps| ==> ps[i] != ps[j])
  }

  /** The `next` links follow the chain. */
  ghost predicate Forward(m: Memory, ps: seq<Ptr>)
    requires Pages(m, ps)
  {
    && (forall i, j :: 0 <= i < j < |ps| && j == i + 1 ==> m[ps[i]].next == ps[j])
    && (ps != [] ==> m[ps[|ps| - 1]].next == NULL)
  }

  /** The `prev` links follow the chain, except perhaps that of page `b`. */
  ghost predicate BackwardExcept(m: Memory, ps: seq<Ptr>, b: int)
    requires Pages(m, ps)
  {
    && (forall i, j :: 0 <= i < j < |ps| && j == i + 1 && j != b ==> m[ps[j]].prev == ps[i])
    && (ps != [] ==> m[ps[0]].prev == NULL)
  }

  ghost predicate Backward(m: Memory, ps: seq<Ptr>)
    requires Pages(m, ps)
  {
    BackwardExcept(m, ps, -1)
  }

  ghost predicate Chain(m: Memory, ps: seq<Ptr>) {
    Pages(m, ps) && Forward(m, ps) && Backward(m, ps)
  }

  ghost function LiveAt(m: Memory, p: Ptr): seq<Region> {
    if p in m then m[p].Live() else []
  }

  ghost function Contents(m: Memory, ps: seq<Ptr>): seq<seq<Region>> {
    seq(|ps|, i requires 0 <= i < |ps| => LiveAt(m, ps[i]))
  }

  /** The list of free regions read along the chain. */
  ghost function AllRegions(m: Memory, ps: seq<Ptr>): seq<Region> {
    Flatten(Contents(m, ps))
  }

  lemma Links(m: Memory, ps: seq<Ptr>, k: int)
    requires Chain(m, ps) && 0 <= k < |ps|
    ensures m[ps[k]].next == At(ps, k + 1) && m[ps[k]].prev == At(ps, k - 1)
  {
  }

  ghost predicate SameLinksAlong(m: Memory, m': Memory, ps: seq<Ptr>)
    requires Pages(m, ps) && Pages(m', ps)
  {
    forall i :: 0 <= i < |ps| ==> m'[ps[i]].SameLinks(m[ps[i]])
  }

  /** The link predicates look at links only. */
  lemma TransferLinks(m: Memory, m': Memory, ps: seq<Ptr>, b: int)
    requires Pages(m, ps) && Pages(m', ps) && SameLinksAlong(m, m', ps)
    ensures Forward(m, ps) <==> Forward(m', ps)
    ensures BackwardExcept(m, ps, b) <==> BackwardExcept(m', ps, b)
  {
    assert forall i :: 0 <= i < |ps| ==> m'[ps[i]].SameLinks(m[ps[i]]);
  }

  /** Rewriting the regions of one page changes one chunk and no link. */
  lemma EditPage(m: Memory, ps: seq<Ptr>, k: int, page: Page)
    requires Pages(m, ps) && 0 <= k < |ps| && page.Shape() && page.SameLinks(m[ps[k]])
    ensures var m' := m[ps[k] := page];
            && Pages(m', ps) && SameLinksAlong(m, m', ps)
            && Contents(m', ps) == Contents(m, ps)[k := page.Live()]
            && (Chain(m, ps) ==> Chain(m', ps))
  {
    var m' := m[ps[k] := page];
    assert forall i :: 0 <= i < |ps| && i != k ==> m'[ps[i]] == m[ps[i]];
    TransferLinks(m, m', ps, -1);
  }

  /** Rewriting the regions of two neighbouring pages. */
  lemma EditPair(m: Memory, ps: seq<Ptr>, k: int, page: Page, page': Page)
    requires Pages(m, ps) && 0 <= k && k + 1 < |ps|
    requires page.Shape() && page.SameLinks(m[ps[k]])
    requires page'.Shape() && page'.SameLinks(m[ps[k + 1]])
    ensures var m' := m[ps[k] := page][ps[k + 1] := page'];
            && Pages(m', ps) && SameLinksAlong(m, m', ps)
            && Contents(m', ps) == Contents(m, ps)[k := page.Live()][k + 1 := page'.Live()]
            && (Chain(m, ps) ==> Chain(m', ps))
  {
    EditPage(m, ps, k, page);
    var m1 := m[ps[k] := page];
    assert m1[ps[k + 1]] == m[ps[k + 1]];
    EditPage(m1, ps, k + 1, page');
    assert forall i :: 0 <= i < |ps| ==> m1[ps[i]].SameLinks(m[ps[i]]);
  }

  function InsertAfter(ps: seq<Ptr>, k: int, n: Ptr): (qs: seq<Ptr>)
    requires 0 <= k < |ps|
    ensures |qs| == |ps| + 1
    ensures forall i :: 0 <= i <= k ==> qs[i] == ps[i]
    ensures qs[k + 1] == n
    ensures forall i, j :: k < i < |ps| && j == i + 1 ==> qs[j] == ps[i]
  {
    ps[..k + 1] + [n] + ps[k + 1..]
  }

  /** Memory after a new page `n` holding `e` was linked behind page `k`. */
  function WithNewPage(m: Memory, ps: seq<Ptr>, k: int, n: Ptr, e: Page): Memory
    requires 0 <= k < |ps| && ps[k] in m
  {
    m[n := e][ps[k] := m[ps[k]].(next := n)]
  }

  /** Linking a new page after page `k` and leaving the old successor as it was: every link is
      right except the successor's `prev`, which still names page `k`. */
  lemma LinkNewPage(m: Memory, ps: seq<Ptr>, k: int, n: Ptr, e: Page)
    requires Chain(m, ps) && 0 <= k < |ps| && n !in m && n != NULL
    requires e.Shape() && e.prev == ps[k] && e.next == m[ps[k]].next
    ensures var m' := WithNewPage(m, ps, k, n, e);
            var qs := InsertAfter(ps, k, n);
            && Pages(m', qs) && Forward(m', qs) && BackwardExcept(m', qs, k + 2)
            && (k + 2 < |qs| ==> m'[qs[k + 2]].prev == ps[k])
  {
    NewPageForward(m, ps, k, n, e);
    NewPageBackward(m, ps, k, n, e);
  }

  lemma NewPagePages(m: Memory, ps: seq<Ptr>, k: int, n: Ptr, e: Page)
    requires Pages(m, ps) && 0 <= k < |ps| && n !in m && n != NULL && e.Shape()
    ensures Pages(WithNewPage(m, ps, k, n, e), InsertAfter(ps, k, n))
    ensures forall i :: 0 <= i < |ps| ==> ps[i] != n && WithNewPage(m, ps, k, n, e)[ps[i]] == if i == k then m[ps[i]].(next := n) else m[ps[i]]
  {
  }

  lemma NewPageForward(m: Memory, ps: seq<Ptr>, k: int, n: Ptr, e: Page)
    requires Pages(m, ps) && Forward(m, ps) && 0 <= k < |ps| && n !in m && n != NULL
    requires e.Shape() && e.next == m[ps[k]].next
    ensures Pages(WithNewPage(m, ps, k, n, e), InsertAfter(ps, k, n)) && Forward(WithNewPage(m, ps, k, n, e), InsertAfter(ps, k, n))
  {
    NewPagePages(m, ps, k, n, e);
  }

  lemma NewPageBackward(m: Memory, ps: seq<Ptr>, k: int, n: Ptr, e: Page)
    requires Pages(m, ps) && Backward(m, ps) && 0 <= k < |ps| && n !in m && n != NULL
    requires e.Shape() && e.prev == ps[k]
    ensures var m' := WithNewPage(m, ps, k, n, e);
            var qs := InsertAfter(ps, k, n);
            Pages(m', qs) && BackwardExcept(m', qs, k + 2) && (k + 2 < |qs| ==> m'[qs[k + 2]].prev == ps[k])
  {
    NewPagePages(m, ps, k, n, e);
  }

  lemma NewPageContents(m: Memory, ps: seq<Ptr>, k: int, n: Ptr, e: Page)
    requires Pages(m, ps) && 0 <= k < |ps| && n !in m
    ensures Contents(WithNewPage(m, ps, k, n, e), InsertAfter(ps, k, n))
            == Contents(m, ps)[..k + 1] + [e.Live()] + Contents(m, ps)[k + 1..]
  {
    var m' := WithNewPage(m, ps, k, n, e);
    var qs := InsertAfter(ps, k, n);
    assert forall i :: 0 <= i < |ps| ==> LiveAt(m', ps[i]) == LiveAt(m, ps[i]);
    forall i | 0 <= i < |qs|
      ensures Contents(m', qs)[i] == (Contents(m, ps)[..k + 1] + [e.Live()] + Contents(m, ps)[k + 1..])[i]
    {
      if i > k + 1 {
        assert qs[i] == ps[i - 1];
      }
    }
  }

  function DropAt(ps: seq<Ptr>, k: int): (qs: seq<Ptr>)
    requires 0 <= k < |ps|
    ensures |qs| == |ps| - 1
    ensures forall i :: 0 <= i < k ==> qs[i] == ps[i]
    ensures forall i, j :: k <= i < |qs| && j == i + 1 ==> qs[i] == ps[j]
  {
    ps[..k] + ps[k + 1..]
  }

  /** What unlinking page `k + 1` from the chain leaves in memory, page `k` becoming `page`. */
  ghost predicate Unlinked(m: Memory, ps: seq<Ptr>, k: int, page: Page, m': Memory)
    requires Pages(m, ps) && 0 <= k && k + 1 < |ps|
  {
    && (forall i :: 0 <= i < |ps| && i != k + 1 ==> ps[i] in m')
    && m'[ps[k]] == page
    && (k + 2 < |ps| ==> m'[ps[k + 2]] == m[ps[k + 2]].(prev := ps[k]))
    && (forall i :: 0 <= i < |ps| && (i < k || i > k + 2) ==> m'[ps[i]] == m[ps[i]])
  }

  /** Memory after page `q` was taken out behind page `p`, which became `page`. */
  function Without(m: Memory, p: Ptr, q: Ptr, page: Page): Memory {
    var joined := m[p := page];
    (if page.next != NULL && page.next in joined then joined[page.next := joined[page.next].(prev := p)] else joined) - {q}
  }

  lemma WithoutIs(m: Memory, ps: seq<Ptr>, k: int, page: Page)
    requires Chain(m, ps) && 0 <= k && k + 1 < |ps| && page.next == m[ps[k + 1]].next
    ensures Unlinked(m, ps, k, page, Without(m, ps[k], ps[k + 1], page))
  {
    Links(m, ps, k + 1);
  }

  /** A page of the chain that is left. */
  lemma AfterUnlink(m: Memory, ps: seq<Ptr>, k: int, page: Page, m': Memory, i: int)
    requires Pages(m, ps) && 0 <= k && k + 1 < |ps| && Unlinked(m, ps, k, page, m') && 0 <= i < |ps| - 1
    ensures var q, o := DropAt(ps, k + 1)[i], if i <= k then i else i + 1;
            && q == ps[o] && q in m'
            && m'[q] == if i == k then page else if i == k + 1 then m[ps[o]].(prev := ps[k]) else m[ps[o]]
  {
  }

  /** Page `i` of the chain has its place. */
  ghost predicate LinkedAt(m: Memory, ps: seq<Ptr>, i: int)
    requires 0 <= i < |ps|
  {
    && ps[i] in m && ps[i] != NULL && m[ps[i]].Shape()
    && m[ps[i]].prev == At(ps, i - 1) && m[ps[i]].next == At(ps, i + 1)
  }

  lemma ChainOf(m: Memory, ps: seq<Ptr>)
    requires forall i :: 0 <= i < |ps| ==> LinkedAt(m, ps, i)
    requires forall i, j :: 0 <= i < j < |ps| ==> ps[i] != ps[j]
    ensures Chain(m, ps)
  {
    forall i | 0 <= i < |ps|
      ensures ps[i] in m && ps[i] != NULL && m[ps[i]].Shape()
    {
      assert LinkedAt(m, ps, i);
    }
    forall i, j | 0 <= i < j < |ps| && j == i + 1
      ensures m[ps[i]].next == ps[j] && m[ps[j]].prev == ps[i]
    {
      assert LinkedAt(m, ps, i) && LinkedAt(m, ps, j);
    }
    if ps != [] {
      assert LinkedAt(m, ps, 0) && LinkedAt(m, ps, |ps| - 1);
    }
  }

  lemma UnlinkPage(m: Memory, ps: seq<Ptr>, k: int, page: Page, m': Memory)
    requires Chain(m, ps) && 0 <= k && k + 1 < |ps| && Unlinked(m, ps, k, page, m')
    requires page.Shape() && page.prev == m[ps[k]].prev && page.next == m[ps[k + 1]].next
    ensures Chain(m', DropAt(ps, k + 1))
  {
    var qs := DropAt(ps, k + 1);
    forall i | 0 <= i < |qs|
      ensures LinkedAt(m', qs, i)
    {
      UnlinkedAt(m, ps, k, page, m', i);
    }
    StillDistinct(ps, k + 1);
    ChainOf(m', qs);
  }

  lemma StillDistinct(ps: seq<Ptr>, k: int)
    requires 0 <= k < |ps| && forall i, j :: 0 <= i < j < |ps| ==> ps[i] != ps[j]
    ensures forall i, j :: 0 <= i < j < |ps| - 1 ==> DropAt(ps, k)[i] != DropAt(ps, k)[j]
  {
    forall i | 0 <= i < |ps| - 1
      ensures DropAt(ps, k)[i] == ps[if i < k then i else i + 1]
    {
    }
  }

  lemma UnlinkedAt(m: Memory, ps: seq<Ptr>, k: int, page: Page, m': Memory, i: int)
    requires Chain(m, ps) && 0 <= k && k + 1 < |ps| && Unlinked(m, ps, k, page, m') && 0 <= i < |ps| - 1
    requires page.Shape() && page.prev == m[ps[k]].prev && page.next == m[ps[k + 1]].next
    ensures LinkedAt(m', DropAt(ps, k + 1), i)
  {
    AfterUnlink(m, ps, k, page, m', i);
    Links(m, ps, if i <= k then i else i + 1);
    Links(m, ps, k + 1);
  }

  lemma UnlinkContents(m: Memory, ps: seq<Ptr>, k: int, page: Page, m': Memory)
    requires Pages(m, ps) && 0 <= k && k + 1 < |ps| && Unlinked(m, ps, k, page, m')
    ensures Contents(m', DropAt(ps, k + 1)) == Contents(m, ps)[..k] + [page.Live()] + Contents(m, ps)[k + 2..]
  {
    var qs := DropAt(ps, k + 1);
    forall i | 0 <= i < |qs|
      ensures Contents(m', qs)[i] == (Contents(m, ps)[..k] + [page.Live()] + Contents(m, ps)[k + 2..])[i]
    {
      if i > k {
        assert qs[i] == ps[i + 1];
      }
    }
  }

  /** Setting the successor's `prev` completes the chain. */
  lemma RelinkPage(m: Memory, ps: seq<Ptr>, b: int)
    requires Pages(m, ps) && Forward(m, ps) && BackwardExcept(m, ps, b) && 0 < b < |ps|
    ensures var m' := m[ps[b] := m[ps[b]].(prev := ps[b - 1])];
            Chain(m', ps) && Contents(m', ps) == Contents(m, ps)
  {
    var m' := m[ps[b] := m[ps[b]].(prev := ps[b - 1])];
    assert forall i :: 0 <= i < |ps| && i != b ==> m'[ps[i]] == m[ps[i]];
    assert Pages(m', ps);
    assert forall i :: 0 <= i < |ps| ==> m'[ps[i]].next == m[ps[i]].next;
  }

  /** A chain of one empty page. */
  lemma SinglePage(m: Memory, n: Ptr)
    requires n in m && n != NULL && m[n] == EmptyPage()
    ensures Chain(m, [n]) && Contents(m, [n]) == [[]] && AllRegions(m, [n]) == []
  {
    assert m[n].Live() == [];
    assert Contents(m, [n]) == [[]];
    FlattenOne([]);
  }
}
