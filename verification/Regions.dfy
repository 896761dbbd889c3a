/** Lists of free address regions, read as sets of addresses.

    The virtual allocator keeps its free regions in a chain of pages. This module holds
    what is true of the list obtained by reading that chain from front to back, without
    any pages: what a splice does to the set of free addresses, when a list is fully
    coalesced, and that a fully coalesced list is determined by its set of addresses.
 */
module Regions {
  import opened Basics

  datatype Region = Region(start: int, end: int)

  predicate Has(r: Region, a: int) {
    r.start <= a < r.end
  }

  predicate PageAligned(r: Region) {
    r.start % PAGE_SIZE == 0 && r.end % PAGE_SIZE == 0
  }

  /** The `size` addresses from `a` on are all in `f`. */
  ghost predicate FreeRun(f: iset<int>, a: int, size: int) {
    Addrs(Region(a, a + size)) <= f
  }

  /** What every region stored by the allocator satisfies. */
  predicate Proper(r: Region) {
    r.start < r.end && PageAligned(r)
  }

  ghost function Addrs(r: Region): iset<int> {
    iset a: int | Has(r, a)
  }

  ghost predicate Covers(rs: seq<Region>, a: int) {
    exists i :: 0 <= i < |rs| && Has(rs[i], a)
  }

  ghost function FreeAddrs(rs: seq<Region>): iset<int> {
    iset a: int | Covers(rs, a)
  }

  /** Proper regions in ascending order; neighbours may touch. */
  ghost predicate Ordered(rs: seq<Region>) {
    && (forall i :: 0 <= i < |rs| ==> Proper(rs[i]))
    && (forall i, j :: 0 <= i < j < |rs| ==> rs[i].end <= rs[j].start)
  }

  /** Proper regions in ascending order with a real gap between any two. */
  ghost predicate Coalesced(rs: seq<Region>) {
    && (forall i :: 0 <= i < |rs| ==> Proper(rs[i]))
    && (forall i, j :: 0 <= i < j < |rs| ==> rs[i].end < rs[j].start)
  }

  /** Ordered, and no two regions touch unless the later of them sits at index `b`. */
  ghost predicate TouchesOnlyAt(rs: seq<Region>, b: int) {
    && Ordered(rs)
    && (forall i, j :: 0 <= i < j < |rs| && j != b ==> rs[i].end < rs[j].start)
  }

  /** Replaces `rs[i..j]` by `m`. */
  function Splice(rs: seq<Region>, i: int, j: int, m: seq<Region>): (r: seq<Region>)
    requires 0 <= i <= j <= |rs|
  {
    rs[..i] + m + rs[j..]
  }

  lemma FreeAddrsConcat(a: seq<Region>, b: seq<Region>)
    ensures FreeAddrs(a + b) == FreeAddrs(a) + FreeAddrs(b)
  {
    forall x: int
      ensures x in FreeAddrs(a + b) <==> x in FreeAddrs(a) || x in FreeAddrs(b)
    {
      if x in FreeAddrs(a) {
        var i :| 0 <= i < |a| && Has(a[i], x);
        assert (a + b)[i] == a[i];
      }
      if x in FreeAddrs(b) {
        var i :| 0 <= i < |b| && Has(b[i], x);
        assert (a + b)[|a| + i] == b[i];
      }
    }
  }

  lemma FreeAddrsOne(r: Region)
    ensures FreeAddrs([r]) == Addrs(r)
  {
    forall x: int
      ensures x in FreeAddrs([r]) <==> Has(r, x)
    {
      assert [r][0] == r;
    }
  }

  lemma FreeAddrsTwo(r: Region, s: Region)
    ensures FreeAddrs([r, s]) == Addrs(r) + Addrs(s)
  {
    assert [r, s] == [r] + [s];
    FreeAddrsConcat([r], [s]);
    FreeAddrsOne(r);
    FreeAddrsOne(s);
  }

  /** Disjointness of two stretches of an ordered list. */
  lemma StretchesDisjoint(rs: seq<Region>, i: int, j: int, k: int, l: int)
    requires Ordered(rs) && 0 <= i <= j <= k <= l <= |rs|
    ensures FreeAddrs(rs[i..j]) !! FreeAddrs(rs[k..l])
  {
    forall p, q | 0 <= p < j - i && 0 <= q < l - k
      ensures rs[i..j][p].end <= rs[k..l][q].start
    {
      assert rs[i..j][p] == rs[i + p] && rs[k..l][q] == rs[k + q];
    }
  }

  /** A splice takes the old stretch out of the set and puts the new one in. */
  lemma SpliceAddrs(rs: seq<Region>, i: int, j: int, m: seq<Region>)
    requires Ordered(rs) && 0 <= i <= j <= |rs|
    ensures FreeAddrs(Splice(rs, i, j, m)) == FreeAddrs(rs) - FreeAddrs(rs[i..j]) + FreeAddrs(m)
  {
    FreeAddrsConcat(rs[..i] + m, rs[j..]);
    FreeAddrsConcat(rs[..i], m);
    assert rs == rs[..i] + rs[i..j] + rs[j..];
    FreeAddrsConcat(rs[..i] + rs[i..j], rs[j..]);
    FreeAddrsConcat(rs[..i], rs[i..j]);
    StretchesDisjoint(rs, 0, i, i, j);
    StretchesDisjoint(rs, i, j, j, |rs|);
    assert rs[0..i] == rs[..i] && rs[j..|rs|] == rs[j..];
  }

  lemma CoalescedConcat(a: seq<Region>, b: seq<Region>)
    requires Coalesced(a) && Coalesced(b)
    requires a != [] && b != [] ==> a[|a| - 1].end < b[0].start
    ensures Coalesced(a + b)
  {
    forall i, j | 0 <= i < |a| && 0 <= j < |b|
      ensures a[i].end < b[j].start
    {
      assert a[i].end <= a[|a| - 1].end by {
        assert Proper(a[|a| - 1]);
      }
      assert b[0].start <= b[j].start by {
        assert Proper(b[0]);
      }
    }
  }

  lemma PartsCoalesced(rs: seq<Region>, i: int, j: int)
    requires Coalesced(rs) && 0 <= i <= j <= |rs|
    ensures Coalesced(rs[..i]) && Coalesced(rs[j..])
    ensures 0 < i && j < |rs| ==> rs[i - 1].end < rs[j].start
  {
  }

  /** A splice keeps the list coalesced when the new stretch leaves gaps on both sides. */
  lemma SpliceCoalesced(rs: seq<Region>, i: int, j: int, m: seq<Region>)
    requires Coalesced(rs) && Coalesced(m) && 0 <= i <= j <= |rs|
    requires m != [] && i > 0 ==> rs[i - 1].end < m[0].start
    requires m != [] && j < |rs| ==> m[|m| - 1].end < rs[j].start
    ensures Coalesced(Splice(rs, i, j, m))
  {
    PartsCoalesced(rs, i, j);
    if m == [] {
      assert Splice(rs, i, j, m) == rs[..i] + rs[j..];
      CoalescedConcat(rs[..i], rs[j..]);
    } else {
      CoalescedConcat(rs[..i], m);
      CoalescedConcat(rs[..i] + m, rs[j..]);
    }
  }

  /** Replaces `rs[i..j]` by one region that touches at most the region before it. */
  lemma SpliceTouches(rs: seq<Region>, i: int, j: int, r: Region)
    requires Coalesced(rs) && Proper(r) && 0 <= i <= j <= |rs|
    requires i > 0 ==> rs[i - 1].end <= r.start
    requires j < |rs| ==> r.end < rs[j].start
    ensures TouchesOnlyAt(Splice(rs, i, j, [r]), i)
    ensures i == 0 || rs[i - 1].end < r.start ==> Coalesced(Splice(rs, i, j, [r]))
  {
    var s := Splice(rs, i, j, [r]);
    forall k | 0 <= k < |s|
      ensures s[k] == if k < i then rs[k] else if k == i then r else rs[k - 1 - i + j]
    {
    }
    forall p, q | 0 <= p < q < |s|
      ensures s[p].end <= s[q].start && (q != i ==> s[p].end < s[q].start)
      ensures i == 0 || rs[i - 1].end < r.start ==> s[p].end < s[q].start
    {
      if p < i && q >= i {
        assert Proper(rs[i - 1]) && rs[p].end <= rs[i - 1].end <= r.start;
      }
      if q > i && p <= i {
        var u := q - 1 - i + j;
        assert Proper(rs[j]) && r.end < rs[j].start <= rs[u].start;
      }
    }
  }

  /** Replaces `rs[i..j]` by one region covering it and `r`. */
  lemma Absorb(rs: seq<Region>, i: int, j: int, z: Region, r: Region)
    requires Coalesced(rs) && Proper(z) && 0 <= i <= j <= |rs|
    requires Addrs(z) == FreeAddrs(rs[i..j]) + Addrs(r)
    requires i > 0 ==> rs[i - 1].end <= z.start
    requires j < |rs| ==> z.end < rs[j].start
    ensures var s := Splice(rs, i, j, [z]);
            && FreeAddrs(s) == FreeAddrs(rs) + Addrs(r)
            && TouchesOnlyAt(s, i)
            && (i == 0 || rs[i - 1].end < z.start ==> Coalesced(s))
  {
    SpliceTouches(rs, i, j, z);
    CoalescedIsOrdered(rs, 0);
    AbsorbAddrs(rs, i, j, z, r);
  }

  lemma AbsorbAddrs(rs: seq<Region>, i: int, j: int, z: Region, r: Region)
    requires Ordered(rs) && 0 <= i <= j <= |rs| && Addrs(z) == FreeAddrs(rs[i..j]) + Addrs(r)
    ensures FreeAddrs(Splice(rs, i, j, [z])) == FreeAddrs(rs) + Addrs(r)
  {
    SpliceAddrs(rs, i, j, [z]);
    SpliceAddrs(rs, i, j, rs[i..j]);
    assert Splice(rs, i, j, rs[i..j]) == rs;
    FreeAddrsOne(z);
    PutBack(FreeAddrs(rs), FreeAddrs(rs[i..j]), Addrs(r));
  }

  lemma PutBack(f: iset<int>, x: iset<int>, r: iset<int>)
    requires f == f - x + x
    ensures f - x + (x + r) == f + r
  {
  }

  lemma MergeCoalesced(rs: seq<Region>, b: int, z: Region)
    requires 0 < b < |rs| && TouchesOnlyAt(rs, b) && Proper(z)
    requires z.start == rs[b - 1].start && z.end == rs[b].end
    ensures Coalesced(Splice(rs, b - 1, b + 1, [z]))
  {
    assert Coalesced(rs[..b - 1]) && Coalesced(rs[b + 1..]) && Coalesced([z]);
    CoalescedConcat(rs[..b - 1], [z]);
    CoalescedConcat(rs[..b - 1] + [z], rs[b + 1..]);
  }

  /** Merging the one touching pair coalesces the list and keeps its addresses. */
  lemma MergeTouching(rs: seq<Region>, b: int)
    requires 0 < b < |rs| && TouchesOnlyAt(rs, b) && rs[b - 1].end == rs[b].start
    ensures var s := Splice(rs, b - 1, b + 1, [Region(rs[b - 1].start, rs[b].end)]);
            Coalesced(s) && FreeAddrs(s) == FreeAddrs(rs)
  {
    var x, y := rs[b - 1], rs[b];
    var z := Region(x.start, y.end);
    assert Proper(x) && Proper(y);
    MergeCoalesced(rs, b, z);
    SpliceAddrs(rs, b - 1, b + 1, [z]);
    SpliceAddrs(rs, b - 1, b + 1, [x, y]);
    assert rs[b - 1..b + 1] == [x, y];
    assert Splice(rs, b - 1, b + 1, [x, y]) == rs;
    FreeAddrsTwo(x, y);
    FreeAddrsOne(z);
    assert Addrs(z) == Addrs(x) + Addrs(y);
  }

  lemma NotTouching(rs: seq<Region>, b: int)
    requires TouchesOnlyAt(rs, b)
    requires 0 < b < |rs| ==> rs[b - 1].end != rs[b].start
    ensures Coalesced(rs)
  {
    forall i, j | 0 <= i < j < |rs|
      ensures rs[i].end < rs[j].start
    {
      if j == b && i < b - 1 {
        assert Proper(rs[b - 1]);
      }
    }
  }

  /** A coalesced list touches nowhere. */
  lemma CoalescedIsOrdered(rs: seq<Region>, b: int)
    requires Coalesced(rs)
    ensures Ordered(rs) && TouchesOnlyAt(rs, b)
  {
    forall i, j | 0 <= i < j < |rs|
      ensures rs[i].end < rs[j].start
    {
    }
  }

  lemma GapAfter(rs: seq<Region>, i: int)
    requires Coalesced(rs) && 0 <= i < |rs|
    ensures !Covers(rs, rs[i].end)
  {
    forall j | 0 <= j < |rs|
      ensures !Has(rs[j], rs[i].end)
    {
      assert Proper(rs[i]) && Proper(rs[j]);
    }
  }

  /** In a coalesced list, a run of free addresses lies inside a single region. */
  lemma RunInsideOneRegion(rs: seq<Region>, r: Region) returns (i: int)
    requires Coalesced(rs) && r.start < r.end && Addrs(r) <= FreeAddrs(rs)
    ensures 0 <= i < |rs| && rs[i].start <= r.start && r.end <= rs[i].end
  {
    assert r.start in Addrs(r);
    assert Covers(rs, r.start);
    i :| 0 <= i < |rs| && Has(rs[i], r.start);
    assert !Covers(rs, rs[i].end) by {
      GapAfter(rs, i);
    }
    assert rs[i].end !in Addrs(r);
  }

  lemma InsideIsFree(rs: seq<Region>, i: int, r: Region)
    requires 0 <= i < |rs| && rs[i].start <= r.start && r.end <= rs[i].end
    ensures Addrs(r) <= FreeAddrs(rs)
  {
    forall x: int | Has(r, x)
      ensures x in FreeAddrs(rs)
    {
      assert Has(rs[i], x);
    }
  }

  lemma FirstIsLeast(rs: seq<Region>, i: int)
    requires Coalesced(rs) && 0 <= i < |rs|
    ensures i == 0 || rs[0].end < rs[i].start
    ensures rs[0].start < rs[0].end
  {
    assert Proper(rs[0]);
  }

  /** The first region of a coalesced list is read off the set of addresses. */
  lemma FirstRegion(rs: seq<Region>, ss: seq<Region>)
    requires Coalesced(rs) && Coalesced(ss) && FreeAddrs(rs) == FreeAddrs(ss) && rs != []
    ensures ss != [] && ss[0] == rs[0]
  {
    assert Has(rs[0], rs[0].start);
    var x := rs[0].start;
    assert x in FreeAddrs(ss);
    InsideIsFree(rs, 0, rs[0]);
    InsideIsFree(ss, 0, ss[0]);
    var i := RunInsideOneRegion(ss, rs[0]);
    var j := RunInsideOneRegion(rs, ss[0]);
    FirstIsLeast(ss, i);
    FirstIsLeast(rs, j);
  }

  lemma CoversFirst(rs: seq<Region>)
    requires Coalesced(rs)
    ensures rs == [] || rs[0].start in FreeAddrs(rs)
  {
    if rs != [] {
      assert Proper(rs[0]) && Has(rs[0], rs[0].start);
    }
  }

  lemma DropFirst(rs: seq<Region>)
    requires Coalesced(rs) && rs != []
    ensures Coalesced(rs[1..]) && FreeAddrs(rs[1..]) == FreeAddrs(rs) - Addrs(rs[0])
  {
    assert rs == [rs[0]] + rs[1..];
    FreeAddrsConcat([rs[0]], rs[1..]);
    FreeAddrsOne(rs[0]);
    CoalescedIsOrdered(rs, 0);
    StretchesDisjoint(rs, 0, 1, 1, |rs|);
    assert rs[0..1] == [rs[0]] && rs[1..|rs|] == rs[1..];
  }

  /** A fully coalesced list is determined by the addresses it covers, so a contract that
      fixes the set of free addresses fixes the list the allocator stores. */
  lemma {:induction false} CoalescedIsCanonical(rs: seq<Region>, ss: seq<Region>)
    requires Coalesced(rs) && Coalesced(ss) && FreeAddrs(rs) == FreeAddrs(ss)
    ensures rs == ss
  {
    if rs == [] {
      CoversFirst(ss);
    } else {
      FirstRegion(rs, ss);
      DropFirst(rs);
      DropFirst(ss);
      CoalescedIsCanonical(rs[1..], ss[1..]);
      assert rs == [rs[0]] + rs[1..] && ss == [ss[0]] + ss[1..];
    }
  }

  /** When every region is smaller than `size`, no run of `size` free addresses exists. */
  lemma NoLargeRun(rs: seq<Region>, size: int)
    requires Coalesced(rs) && size > 0
    requires forall i :: 0 <= i < |rs| ==> rs[i].end - rs[i].start < size
    ensures forall a :: !FreeRun(FreeAddrs(rs), a, size)
  {
    forall a
      ensures !FreeRun(FreeAddrs(rs), a, size)
    {
      if FreeRun(FreeAddrs(rs), a, size) {
        var i := RunInsideOneRegion(rs, Region(a, a + size));
      }
    }
  }

  /** Cutting `r` out of region `i`, leaving what lies before and after it. */
  function Remainder(x: Region, r: Region): seq<Region> {
    (if x.start < r.start then [Region(x.start, r.start)] else [])
    + (if r.end < x.end then [Region(r.end, x.end)] else [])
  }

  lemma RemainderAddrs(x: Region, r: Region)
    requires x.start <= r.start < r.end <= x.end
    ensures FreeAddrs(Remainder(x, r)) == Addrs(x) - Addrs(r)
  {
    var a, b := Region(x.start, r.start), Region(r.end, x.end);
    var front := if x.start < r.start then [a] else [];
    var back := if r.end < x.end then [b] else [];
    FreeAddrsConcat(front, back);
    FreeAddrsOne(a);
    FreeAddrsOne(b);
    assert FreeAddrs(front) == Addrs(a);
    assert FreeAddrs(back) == Addrs(b);
  }

  lemma CarveCoalesced(rs: seq<Region>, i: int, r: Region, m: seq<Region>)
    requires Coalesced(rs) && 0 <= i < |rs| && Proper(r)
    requires rs[i].start <= r.start && r.end <= rs[i].end && m == Remainder(rs[i], r)
    ensures Coalesced(Splice(rs, i, i + 1, m))
  {
    assert Proper(rs[i]);
    assert Coalesced(m);
    SpliceCoalesced(rs, i, i + 1, m);
  }

  lemma CarveAddrs(rs: seq<Region>, i: int, r: Region, m: seq<Region>)
    requires Coalesced(rs) && 0 <= i < |rs|
    requires FreeAddrs(m) == Addrs(rs[i]) - Addrs(r) && Addrs(r) <= Addrs(rs[i])
    ensures FreeAddrs(Splice(rs, i, i + 1, m)) == FreeAddrs(rs) - Addrs(r)
    ensures Addrs(r) <= FreeAddrs(rs)
  {
    var x := rs[i];
    CoalescedIsOrdered(rs, 0);
    SpliceAddrs(rs, i, i + 1, m);
    SpliceAddrs(rs, i, i + 1, [x]);
    assert rs[i..i + 1] == [x] && Splice(rs, i, i + 1, [x]) == rs;
    FreeAddrsOne(x);
  }

  /** Carving a part out of one region removes exactly its addresses. */
  lemma Carve(rs: seq<Region>, i: int, r: Region, m: seq<Region>)
    requires Coalesced(rs) && 0 <= i < |rs| && Proper(r)
    requires rs[i].start <= r.start && r.end <= rs[i].end && m == Remainder(rs[i], r)
    ensures Coalesced(Splice(rs, i, i + 1, m))
    ensures FreeAddrs(Splice(rs, i, i + 1, m)) == FreeAddrs(rs) - Addrs(r)
    ensures Addrs(r) <= FreeAddrs(rs)
  {
    RemainderAddrs(rs[i], r);
    CarveCoalesced(rs, i, r, m);
    CarveAddrs(rs, i, r, m);
  }

  /** The region that could contain `r` is the last one starting at or before it. */
  lemma ContainedInLast(rs: seq<Region>, f: int, r: Region)
    requires Coalesced(rs) && 0 <= f < |rs| && r.start < r.end && rs[f].start <= r.start
    requires f + 1 < |rs| ==> r.start < rs[f + 1].start
    ensures Addrs(r) <= FreeAddrs(rs) ==> r.start < rs[f].end && r.end <= rs[f].end
  {
    if Addrs(r) <= FreeAddrs(rs) {
      var j := RunInsideOneRegion(rs, r);
      assert Proper(rs[j]) && Proper(rs[f]);
      assert j == f;
    }
  }
}
