/** The virtual address allocator: free regions kept in a chain of fixed-capacity sorted pages.
 */
module VirtualAlloc {
  import opened Basics
  import opened Regions
  import opened Chunks
  import opened AllocPages

  /** Where an index of a full page went when the page was split. */
  datatype SplitIndex = Prev(idx: nat) | This(idx: nat) | Next(idx: nat)

  /** The page of the chain that a split index names, `k` being the page that was split. */
  function PageOf(at: SplitIndex, k: int): int {
    match at
    case Prev(_) => k - 1
    case This(_) => k
    case Next(_) => k + 1
  }

  /** The result of a binary search: the matching index, or where the key would go. */
  datatype Search = Found(i: nat) | Missing(i: nat)

  method BinarySearch(keys: seq<int>, key: int) returns (s: Search)
    requires forall i, j :: 0 <= i < j < |keys| ==> keys[i] < keys[j]
    ensures s.Found? ==> s.i < |keys| && keys[s.i] == key
    ensures s.Missing? ==> s.i <= |keys|
    ensures s.Missing? ==> forall i :: 0 <= i < s.i ==> keys[i] < key
    ensures s.Missing? ==> forall i :: s.i <= i < |keys| ==> key < keys[i]
  {
    var lo, hi := 0, |keys|;
    while lo < hi
      invariant 0 <= lo <= hi <= |keys|
      invariant forall i :: 0 <= i < lo ==> keys[i] < key
      invariant forall i :: hi <= i < |keys| ==> key < keys[i]
    {
      var mid := (lo + hi) / 2;
      if keys[mid] == key {
        return Found(mid);
      } else if keys[mid] < key {
        lo := mid + 1;
      } else {
        hi := mid;
      }
    }
    return Missing(lo);
  }

  /** A neighbour of a full page that takes half of it instead of a new page. */
  predicate HasRoom(m: Memory, p: Ptr) {
    p in m && p != NULL && m[p].len < CAPACITY / 4
  }

  /** The guard of the split branch that puts a new page between a page and its successor. */
  predicate StrandsSuccessor(m: Memory, p: Ptr)
    requires p in m
  {
    !HasRoom(m, m[p].prev) && !HasRoom(m, m[p].next) && m[p].next != NULL
  }

  datatype Reservation = Refused | Done(ok: bool)

  datatype Allocation = Panicked | OutOfSpace | Allocated(region: Region)

  ghost predicate TooSmall(rs: seq<Region>, size: int) {
    forall i :: 0 <= i < |rs| ==> rs[i].end - rs[i].start < size
  }

  /** The last region of a page with room for `size` bytes, or -1. */
  method LastFit(rs: seq<Region>, size: int) returns (idx: int)
    ensures -1 <= idx < |rs|
    ensures idx >= 0 ==> rs[idx].end - rs[idx].start >= size
    ensures forall i :: idx < i < |rs| ==> rs[i].end - rs[i].start < size
  {
    idx := |rs| - 1;
    while idx >= 0 && rs[idx].end - rs[idx].start < size
      invariant -1 <= idx < |rs|
      invariant forall i :: idx < i < |rs| ==> rs[i].end - rs[i].start < size
    {
      idx := idx - 1;
    }
  }

  lemma {:induction false} TooSmallEverywhere(cs: seq<seq<Region>>, size: int)
    requires forall k :: 0 <= k < |cs| ==> TooSmall(cs[k], size)
    ensures TooSmall(Flatten(cs), size)
  {
    if cs != [] {
      TooSmallEverywhere(cs[1..], size);
      assert TooSmall(cs[0], size);
    }
  }

  /** Every region in the pages before `k` ends at or before `a`. */
  ghost predicate Below(cs: seq<seq<Region>>, k: int, a: int) {
    && 0 <= k <= |cs|
    && (forall j :: 0 <= j < Off(cs, k) && j < |Flatten(cs)| ==> Flatten(cs)[j].end <= a)
  }

  lemma BelowStep(cs: seq<seq<Region>>, k: int, a: int)
    requires 0 <= k < |cs| && Below(cs, k, a) && Coalesced(Flatten(cs))
    requires cs[k] != [] ==> cs[k][|cs[k]| - 1].end <= a
    ensures Below(cs, k + 1, a)
  {
    FlattenAround(cs, k);
    if cs[k] != [] {
      var b := Off(cs, k + 1) - 1;
      FlattenAt(cs, k, |cs[k]| - 1);
      forall j | 0 <= j <= b
        ensures Flatten(cs)[j].end <= a
      {
        assert Proper(Flatten(cs)[b]);
      }
    }
  }

  lemma NotCovered(rs: seq<Region>, f: int, a: int)
    requires 0 <= f <= |rs| && Coalesced(rs)
    requires forall j :: 0 <= j < f ==> rs[j].end <= a
    requires f < |rs| ==> a < rs[f].start
    ensures !Covers(rs, a)
  {
    if f < |rs| {
      assert Proper(rs[f]);
    }
    forall j | f <= j < |rs|
      ensures a < rs[j].start
    {
    }
  }

  /** An address between the pages before `k` and the start of page `k` is not free. */
  lemma StartNotFree(cs: seq<seq<Region>>, k: int, r: Region)
    requires Below(cs, k, r.start) && Coalesced(Flatten(cs)) && r.start < r.end
    requires k < |cs| ==> cs[k] != [] && r.start < cs[k][0].start
    ensures !(Addrs(r) <= FreeAddrs(Flatten(cs)))
  {
    var rs, f := Flatten(cs), Off(cs, k);
    if k < |cs| {
      FlattenAt(cs, k, 0);
      assert Proper(rs[f]);
    } else {
      assert cs[..k] == cs;
    }
    NotCovered(rs, f, r.start);
    assert r.start in Addrs(r);
  }

  /** A region that does not lie inside the one found for its start is not all free. */
  lemma NotInside(cs: seq<seq<Region>>, k: int, i: nat, r: Region)
    requires 0 <= k < |cs| && i < |cs[k]| && Coalesced(Flatten(cs)) && r.start < r.end
    requires cs[k][i].start <= r.start
    requires if i + 1 < |cs[k]| then r.start < cs[k][i + 1].start else r.start < cs[k][i].end
    requires !(r.start < cs[k][i].end && r.end <= cs[k][i].end)
    ensures !(Addrs(r) <= FreeAddrs(Flatten(cs)))
  {
    var rs, f := Flatten(cs), Off(cs, k) + i;
    FlattenAt(cs, k, i);
    if i + 1 < |cs[k]| {
      FlattenAt(cs, k, i + 1);
    }
    ContainedInLast(rs, f, r);
  }

  lemma NoFit(cs: seq<seq<Region>>, size: int)
    requires Coalesced(Flatten(cs)) && size > 0
    requires forall k :: 0 <= k < |cs| ==> TooSmall(cs[k], size)
    ensures forall a :: !FreeRun(FreeAddrs(Flatten(cs)), a, size)
  {
    TooSmallEverywhere(cs, size);
    NoLargeRun(Flatten(cs), size);
  }

  /** Cutting `r` out of region `i` of page `k`. */
  lemma CarveChunk(cs: seq<seq<Region>>, k: int, i: nat, r: Region, m: seq<Region>)
    requires 0 <= k < |cs| && i < |cs[k]| && Coalesced(Flatten(cs)) && Proper(r)
    requires cs[k][i].start <= r.start && r.end <= cs[k][i].end && m == Remainder(cs[k][i], r)
    ensures var ds := cs[k := cs[k][..i] + m + cs[k][i + 1..]];
            && Coalesced(Flatten(ds))
            && FreeAddrs(Flatten(ds)) == FreeAddrs(Flatten(cs)) - Addrs(r)
            && Addrs(r) <= FreeAddrs(Flatten(cs))
  {
    FlattenAt(cs, k, i);
    EditChunk(cs, k, i, i + 1, m);
    CarveSpliced(Flatten(cs), Off(cs, k) + i, cs[k][i], r, m, Flatten(cs[k := cs[k][..i] + m + cs[k][i + 1..]]));
  }

  lemma CarveSpliced(rs: seq<Region>, f: nat, x: Region, r: Region, m: seq<Region>, out: seq<Region>)
    requires Coalesced(rs) && f < |rs| && rs[f] == x && Proper(r)
    requires x.start <= r.start && r.end <= x.end && m == Remainder(x, r) && out == Splice(rs, f, f + 1, m)
    ensures Coalesced(out) && FreeAddrs(out) == FreeAddrs(rs) - Addrs(r) && Addrs(r) <= FreeAddrs(rs)
  {
    Carve(rs, f, r, m);
  }

  /** The index in its page up to which regions end at or before the searched address. */
  function Pos(s: Search): nat {
    if s.Found? then s.i + 1 else s.i
  }

  /** Every page of a coalesced list is coalesced by itself. */
  lemma ChunkCoalesced(cs: seq<seq<Region>>, k: int)
    requires 0 <= k < |cs| && Coalesced(Flatten(cs))
    ensures Coalesced(cs[k])
  {
    FlattenAround(cs, k);
    forall i | 0 <= i < |cs[k]|
      ensures cs[k][i] == Flatten(cs)[Off(cs, k) + i]
    {
      FlattenAt(cs, k, i);
    }
  }

  /** The last region of the page before sits just before the page. */
  lemma NeighbourBefore(cs: seq<seq<Region>>, k: int)
    requires 0 <= k < |cs| && Full(cs)
    ensures k == 0 ==> Off(cs, k) == 0
    ensures k > 0 ==> 0 < Off(cs, k) <= |Flatten(cs)| && Flatten(cs)[Off(cs, k) - 1] == cs[k - 1][|cs[k - 1]| - 1]
  {
    if k > 0 {
      FlattenAround(cs, k - 1);
      FlattenAt(cs, k - 1, |cs[k - 1]| - 1);
    }
  }

  /** What the walk to a page and the search in it establish about freeing `r` there. */
  ghost predicate Searched(cs: seq<seq<Region>>, k: int, s: Search, r: Region) {
    && 0 <= k < |cs|
    && Pos(s) <= |cs[k]|
    && (s.Found? ==> cs[k][s.i].end == r.start)
    && (forall i :: 0 <= i < s.i ==> cs[k][i].end < r.start)
    && (forall i :: Pos(s) <= i < |cs[k]| ==> r.start < cs[k][i].end)
    && (k > 0 ==> cs[k] != [] && cs[k][0].start <= r.end)
    && (k + 1 < |cs| ==> cs[k + 1] != [] && r.end < cs[k + 1][0].start)
  }

  /** Whether `r` overlaps one of the two regions around position `f` of the list. */
  predicate Conflict(rs: seq<Region>, f: int, r: Region) {
    (0 < f <= |rs| && r.start < rs[f - 1].end) || (0 <= f < |rs| && rs[f].start < r.end)
  }

  /** The region before the searched position, read on the flattened list. */
  lemma SearchedLeft(cs: seq<seq<Region>>, k: int, s: Search, r: Region)
    requires Searched(cs, k, s, r) && Coalesced(Flatten(cs))
    ensures var rs, f := Flatten(cs), Off(cs, k) + Pos(s);
            && f <= |rs|
            && (f > 0 && Pos(s) > 0 ==> rs[f - 1] == cs[k][Pos(s) - 1])
            && (f > 0 && Pos(s) == 0 ==> k > 0 && f < |rs| && rs[f] == cs[k][0] && rs[f - 1].end < rs[f].start <= r.end)
  {
    FlattenAround(cs, k);
    if Pos(s) > 0 {
      FlattenAt(cs, k, Pos(s) - 1);
    } else if k > 0 {
      FlattenAt(cs, k, 0);
    }
  }

  /** The region after it. */
  lemma SearchedRight(cs: seq<seq<Region>>, k: int, s: Search, r: Region)
    requires Searched(cs, k, s, r) && Coalesced(Flatten(cs)) && Proper(r)
    ensures var rs, f := Flatten(cs), Off(cs, k) + Pos(s);
            && f <= |rs|
            && (Pos(s) < |cs[k]| ==> f < |rs| && rs[f] == cs[k][Pos(s)])
            && (f < |rs| && Pos(s) == |cs[k]| ==> r.end < rs[f].start)
            && (f < |rs| ==> r.start < rs[f].end)
  {
    var rs, f := Flatten(cs), Off(cs, k) + Pos(s);
    FlattenAround(cs, k);
    if Pos(s) < |cs[k]| {
      FlattenAt(cs, k, Pos(s));
    } else if k + 1 < |cs| {
      NextPageFirst(cs, k, rs, f);
    } else {
      assert cs[..k + 1] == cs;
    }
  }

  /** What follows a page in the list is the first region of the next page. */
  lemma NextPageFirst(cs: seq<seq<Region>>, k: int, rs: seq<Region>, f: nat)
    requires 0 <= k && k + 1 < |cs| && cs[k + 1] != [] && rs == Flatten(cs) && f == Off(cs, k) + |cs[k]| && Coalesced(rs)
    ensures f < |rs| && rs[f] == cs[k + 1][0] && Proper(rs[f])
  {
    FlattenAround(cs, k);
    FlattenAt(cs, k + 1, 0);
  }

  /** The two neighbours decide whether any free region overlaps. */
  lemma ConflictIsOverlap(rs: seq<Region>, f: int, r: Region)
    requires Coalesced(rs) && Proper(r) && 0 <= f <= |rs|
    requires f < |rs| ==> r.start < rs[f].end
    requires f > 0 ==> rs[f - 1].end <= r.start || rs[f - 1].start < r.end
    ensures Conflict(rs, f, r) <==> !(Addrs(r) !! FreeAddrs(rs))
  {
    if f > 0 && r.start < rs[f - 1].end {
      assert Proper(rs[f - 1]);
      var x := if r.start < rs[f - 1].start then rs[f - 1].start else r.start;
      assert Has(r, x) && Has(rs[f - 1], x);
      assert x in Addrs(r) && Covers(rs, x);
    } else if f < |rs| && rs[f].start < r.end {
      assert Proper(rs[f]);
      var x := if r.start < rs[f].start then rs[f].start else r.start;
      assert Has(r, x) && Has(rs[f], x);
      assert x in Addrs(r) && Covers(rs, x);
    } else {
      forall i | 0 <= i < |rs|
        ensures rs[i].end <= r.start || r.end <= rs[i].start
      {
        if f > 0 && i < f {
          assert Proper(rs[f - 1]);
        } else {
          assert Proper(rs[f]);
        }
      }
    }
  }

  /** What every way of placing a freed region establishes: the addresses are added, the region
      sits at index `idx` of page `k`, and at most it touches the page before. */
  ghost predicate PlacedNow(was: seq<seq<Region>>, r: Region, now: seq<seq<Region>>, k: int, idx: nat) {
    && 0 <= k < |now| && idx < |now[k]|
    && FreeAddrs(Flatten(now)) == FreeAddrs(Flatten(was)) + Addrs(r)
    && TouchesOnlyAt(Flatten(now), Off(now, k) + idx)
    && (idx > 0 || k == 0 ==> Coalesced(Flatten(now)))
  }

  ghost predicate Placed(was: seq<seq<Region>>, r: Region, now: seq<seq<Region>>, k: int, idx: nat) {
    forall n: nat {:trigger Look(n)} :: Look(n) ==> PlacedNow(was, r, now, k, idx)
  }

  /** A spot found for freeing `r`, which overlaps nothing. */
  ghost predicate FreeSpot(cs: seq<seq<Region>>, k: int, s: Search, r: Region) {
    forall n: nat {:trigger Look(n)} :: Look(n) ==>
      && Full(cs) && Coalesced(Flatten(cs)) && Proper(r)
      && Searched(cs, k, s, r) && !Conflict(Flatten(cs), Off(cs, k) + Pos(s), r)
  }

  /** Replacing `cs[k][i..j]` by a region `z` that covers it and `r`, with a gap before `z` if
      `apart`; inside a page, and in the first one, there must be one. */
  lemma PlaceChunk(cs: seq<seq<Region>>, k: int, i: nat, j: nat, z: Region, r: Region, apart: bool)
    requires 0 <= k < |cs| && i <= j <= |cs[k]| && Coalesced(Flatten(cs)) && Proper(z)
    requires Addrs(z) == FreeAddrs(cs[k][i..j]) + Addrs(r) && (i > 0 || k == 0 ==> apart)
    requires var rs, a := Flatten(cs), Off(cs, k) + i;
             0 < a <= |rs| ==> rs[a - 1].end <= z.start && (apart ==> rs[a - 1].end < z.start)
    requires var rs, b := Flatten(cs), Off(cs, k) + j; b < |rs| ==> z.end < rs[b].start
    ensures Placed(cs, r, cs[k := cs[k][..i] + [z] + cs[k][j..]], k, i)
    ensures apart ==> Coalesced(Flatten(cs[k := cs[k][..i] + [z] + cs[k][j..]]))
  {
    var rs, a, b := Flatten(cs), Off(cs, k) + i, Off(cs, k) + j;
    AbsorbChunk(cs, k, i, j, z, r, rs, a, b, apart);
    SplicePlaces(cs, k, i, j, z, r, rs, a, b, apart, Splice(rs, a, b, [z]));
  }

  lemma SplicePlaces(cs: seq<seq<Region>>, k: int, i: nat, j: nat, z: Region, r: Region, rs: seq<Region>, a: nat, b: nat, apart: bool, out: seq<Region>)
    requires 0 <= k < |cs| && i <= j <= |cs[k]| && rs == Flatten(cs) && a == Off(cs, k) + i && b == Off(cs, k) + j && b <= |rs|
    requires out == Splice(rs, a, b, [z]) && FreeAddrs(out) == FreeAddrs(rs) + Addrs(r) && TouchesOnlyAt(out, a)
    requires (i > 0 || k == 0 ==> apart) && (apart ==> Coalesced(out))
    ensures Placed(cs, r, cs[k := cs[k][..i] + [z] + cs[k][j..]], k, i)
    ensures out == Flatten(cs[k := cs[k][..i] + [z] + cs[k][j..]])
  {
    var ds := cs[k := cs[k][..i] + [z] + cs[k][j..]];
    EditChunk(cs, k, i, j, [z]);
    assert ds[..k] == cs[..k];
    PlacedAt(cs, ds, k, i, r, a, out);
  }

  /** The same on the list, with a gap before `z` if `apart`. */
  lemma AbsorbChunk(cs: seq<seq<Region>>, k: int, i: nat, j: nat, z: Region, r: Region, rs: seq<Region>, a: nat, b: nat, apart: bool)
    requires 0 <= k < |cs| && i <= j <= |cs[k]| && rs == Flatten(cs) && a == Off(cs, k) + i && b == Off(cs, k) + j
    requires Coalesced(rs) && Proper(z) && Addrs(z) == FreeAddrs(cs[k][i..j]) + Addrs(r)
    requires 0 < a <= |rs| ==> rs[a - 1].end <= z.start && (apart ==> rs[a - 1].end < z.start)
    requires b < |rs| ==> z.end < rs[b].start
    ensures b <= |rs|
    ensures var out := Splice(rs, a, b, [z]);
            && FreeAddrs(out) == FreeAddrs(rs) + Addrs(r) && TouchesOnlyAt(out, a)
            && (apart ==> Coalesced(out))
  {
    SliceChunk(cs, k, i, j, rs, a, b);
    Absorb(rs, a, b, z, r);
  }

  lemma PlacedAt(cs: seq<seq<Region>>, ds: seq<seq<Region>>, k: int, i: nat, r: Region, a: nat, out: seq<Region>)
    requires 0 <= k < |cs| == |ds| && cs[..k] == ds[..k] && i < |ds[k]| && a == Off(cs, k) + i && out == Flatten(ds)
    requires FreeAddrs(out) == FreeAddrs(Flatten(cs)) + Addrs(r) && TouchesOnlyAt(out, a)
    requires i > 0 || k == 0 ==> Coalesced(out)
    ensures Placed(cs, r, ds, k, i)
  {
    OffPrefix(cs, ds, k);
  }

  /** The list around regions `i` to `j` of chunk `k`. */
  lemma Around(cs: seq<seq<Region>>, k: int, i: nat, j: nat)
    requires 0 <= k < |cs| && i < j <= |cs[k]| && Coalesced(Flatten(cs))
    ensures var rs, a, b := Flatten(cs), Off(cs, k) + i, Off(cs, k) + j;
            && a < b <= |rs| && rs[a] == cs[k][i] && rs[b - 1] == cs[k][j - 1]
            && (a > 0 ==> rs[a - 1].end < cs[k][i].start)
            && (b < |rs| ==> cs[k][j - 1].end < rs[b].start)
            && Proper(cs[k][i]) && Proper(cs[k][j - 1])
  {
    FlattenAt(cs, k, i);
    FlattenAt(cs, k, j - 1);
  }

  /** The check made before freeing, on the page searched and the edges of its neighbours. */
  predicate AlreadyFree(cs: seq<seq<Region>>, k: int, s: Search, r: Region)
    requires 0 <= k < |cs| && Pos(s) <= |cs[k]|
    requires k > 0 ==> cs[k - 1] != []
    requires k + 1 < |cs| ==> cs[k + 1] != []
  {
    || (if Pos(s) > 0 then r.start < cs[k][Pos(s) - 1].end
        else k > 0 && r.start < cs[k - 1][|cs[k - 1]| - 1].end)
    || (if Pos(s) < |cs[k]| then cs[k][Pos(s)].start < r.end
        else k + 1 < |cs| && cs[k + 1][0].start < r.end)
  }

  lemma AlreadyFreeIsConflict(cs: seq<seq<Region>>, k: int, s: Search, r: Region)
    requires Full(cs) && Searched(cs, k, s, r) && Coalesced(Flatten(cs)) && Proper(r)
    ensures AlreadyFree(cs, k, s, r) <==> Conflict(Flatten(cs), Off(cs, k) + Pos(s), r)
  {
    SearchedLeft(cs, k, s, r);
    SearchedRight(cs, k, s, r);
    NeighbourBefore(cs, k);
  }

  /** Looking at the neighbours only misses no overlap and reports no false one. */
  lemma AlreadyFreeIsOverlap(cs: seq<seq<Region>>, k: int, s: Search, r: Region)
    requires Full(cs) && Searched(cs, k, s, r) && Coalesced(Flatten(cs)) && Proper(r)
    ensures AlreadyFree(cs, k, s, r) <==> Conflict(Flatten(cs), Off(cs, k) + Pos(s), r)
    ensures AlreadyFree(cs, k, s, r) <==> !(Addrs(r) !! FreeAddrs(Flatten(cs)))
  {
    AlreadyFreeIsConflict(cs, k, s, r);
    SearchedLeft(cs, k, s, r);
    SearchedRight(cs, k, s, r);
    ConflictIsOverlap(Flatten(cs), Off(cs, k) + Pos(s), r);
  }

  /** `r` closes the gap between two regions of one page. */
  lemma PlaceBetween(cs: seq<seq<Region>>, k: int, i: nat, r: Region)
    requires FreeSpot(cs, k, Found(i), r) && 0 <= k < |cs| && i + 1 < |cs[k]| && cs[k][i + 1].start == r.end
    ensures var z := Region(cs[k][i].start, cs[k][i + 1].end);
            Placed(cs, r, cs[k := cs[k][..i] + [z] + cs[k][i + 2..]], k, i)
  {
    assert Look(0);
    var x, y := cs[k][i], cs[k][i + 1];
    Around(cs, k, i, i + 2);
    Around(cs, k, i, i + 1);
    assert cs[k][i..i + 2] == [x, y];
    FreeAddrsTwo(x, y);
    PlaceChunk(cs, k, i, i + 2, Region(x.start, y.end), r, true);
  }

  /** `r` extends a region at its end. */
  lemma PlaceAfter(cs: seq<seq<Region>>, k: int, i: nat, r: Region)
    requires FreeSpot(cs, k, Found(i), r) && 0 <= k < |cs| && i < |cs[k]|
    requires i + 1 < |cs[k]| ==> cs[k][i + 1].start != r.end
    ensures var z := Region(cs[k][i].start, r.end);
            Placed(cs, r, cs[k := cs[k][..i] + [z] + cs[k][i + 1..]], k, i)
  {
    assert Look(0);
    SearchedRight(cs, k, Found(i), r);
    Around(cs, k, i, i + 1);
    FreeAddrsOne(cs[k][i]);
    assert cs[k][i..i + 1] == [cs[k][i]];
    PlaceChunk(cs, k, i, i + 1, Region(cs[k][i].start, r.end), r, true);
  }

  /** `r` extends a region at its start; here alone the page before may be touched. */
  lemma PlaceBefore(cs: seq<seq<Region>>, k: int, i: nat, r: Region)
    requires FreeSpot(cs, k, Missing(i), r) && 0 <= k < |cs| && i < |cs[k]| && cs[k][i].start == r.end
    ensures var z := Region(r.start, cs[k][i].end);
            Placed(cs, r, cs[k := cs[k][..i] + [z] + cs[k][i + 1..]], k, i)
  {
    assert Look(0);
    SearchedLeft(cs, k, Missing(i), r);
    Around(cs, k, i, i + 1);
    FreeAddrsOne(cs[k][i]);
    assert cs[k][i..i + 1] == [cs[k][i]];
    PlaceChunk(cs, k, i, i + 1, Region(r.start, cs[k][i].end), r, i > 0 || k == 0);
  }

  lemma AloneFits(cs: seq<seq<Region>>, k: int, i: nat, r: Region)
    requires Searched(cs, k, Missing(i), r) && Coalesced(Flatten(cs)) && Proper(r)
    requires !Conflict(Flatten(cs), Off(cs, k) + i, r)
    requires i < |cs[k]| ==> cs[k][i].start != r.end
    ensures var rs, f := Flatten(cs), Off(cs, k) + i;
            && (0 < f <= |rs| ==> rs[f - 1].end < r.start)
            && (f < |rs| ==> r.end < rs[f].start)
  {
    SearchedLeft(cs, k, Missing(i), r);
    SearchedRight(cs, k, Missing(i), r);
  }

  /** `r` touches nothing in its page and becomes a region of its own. When the walk left the
      first page, the index is never 0, so the page before is not touched either. */
  lemma PlaceAlone(cs: seq<seq<Region>>, k: int, i: nat, r: Region, now: seq<seq<Region>>, k': int, idx: nat)
    requires FreeSpot(cs, k, Missing(i), r) && 0 <= k < |cs| && (i < |cs[k]| ==> cs[k][i].start != r.end)
    requires Flatten(now) == Flatten(cs) && 0 <= k' < |now| && idx <= |now[k']|
    requires Off(now, k') + idx == Off(cs, k) + i
    ensures Placed(cs, r, now[k' := now[k'][..idx] + [r] + now[k'][idx..]], k', idx)
    ensures Coalesced(Flatten(now[k' := now[k'][..idx] + [r] + now[k'][idx..]]))
  {
    assert Look(0);
    AloneFits(cs, k, i, r);
    FillsNothing(now[k'], idx, r);
    PlaceChunk(now, k', idx, idx, r, r, true);
    SameList(cs, now, r, now[k' := now[k'][..idx] + [r] + now[k'][idx..]], k', idx);
  }

  lemma FillsNothing(c: seq<Region>, i: nat, r: Region)
    requires i <= |c|
    ensures Addrs(r) == FreeAddrs(c[i..i]) + Addrs(r)
  {
    assert c[i..i] == [];
  }

  /** Only the list of regions before matters, not how it was cut. */
  lemma SameList(was: seq<seq<Region>>, was': seq<seq<Region>>, r: Region, now: seq<seq<Region>>, k: int, idx: nat)
    requires Flatten(was) == Flatten(was') && Placed(was', r, now, k, idx)
    ensures Placed(was, r, now, k, idx)
  {
    assert Look(0);
  }

  /** What every way of splitting page `k` keeps: the list itself, and the position that the
      index names in it. The page that the index names has room for one more region. */
  ghost predicate SplitKeeps(was: seq<seq<Region>>, k: int, idx: nat, now: seq<seq<Region>>, at: SplitIndex)
    requires 0 <= k < |was|
  {
    && Flatten(now) == Flatten(was)
    && Full(now)
    && 0 <= PageOf(at, k) < |now|
    && Off(now, PageOf(at, k)) + at.idx == Off(was, k) + idx
    && at.idx <= |now[PageOf(at, k)]| < CAPACITY
    && (idx < CAPACITY ==> at.idx < |now[PageOf(at, k)]|)
  }

  lemma SplitPrevKeeps(was: seq<seq<Region>>, k: int, idx: nat)
    requires 0 < k < |was| && Full(was) && |was[k]| == CAPACITY && |was[k - 1]| < CAPACITY / 4 && idx <= CAPACITY
    ensures var at := if idx < SPLIT_POINT then Prev(|was[k - 1]| + idx) else This(idx - SPLIT_POINT);
            SplitKeeps(was, k, idx, was[k - 1 := was[k - 1] + was[k][..SPLIT_POINT]][k := was[k][SPLIT_POINT..]], at)
  {
    var front, back := was[k][..SPLIT_POINT], was[k][SPLIT_POINT..];
    assert was[k] == front + back;
    MoveCut(was, k - 1, was[k - 1] + front, back);
    FlattenAround(was, k - 1);
  }

  lemma SplitNextKeeps(was: seq<seq<Region>>, k: int, idx: nat)
    requires 0 <= k && k + 1 < |was| && Full(was)
    requires |was[k]| == CAPACITY && |was[k + 1]| < CAPACITY / 4 && idx <= CAPACITY
    ensures var at := if idx >= SPLIT_POINT then Next(idx - SPLIT_POINT) else This(idx);
            SplitKeeps(was, k, idx, was[k := was[k][..SPLIT_POINT]][k + 1 := was[k][SPLIT_POINT..] + was[k + 1]], at)
  {
    var front, back := was[k][..SPLIT_POINT], was[k][SPLIT_POINT..];
    assert was[k] == front + back;
    MoveCut(was, k, front, back + was[k + 1]);
  }

  lemma SplitNewKeeps(was: seq<seq<Region>>, k: int, idx: nat)
    requires 0 <= k < |was| && Full(was) && |was[k]| == CAPACITY && idx <= CAPACITY
    ensures var at := if idx >= SPLIT_POINT then Next(idx - SPLIT_POINT) else This(idx);
            var linked := was[..k + 1] + [[]] + was[k + 1..];
            SplitKeeps(was, k, idx, linked[k := was[k][..SPLIT_POINT]][k + 1 := was[k][SPLIT_POINT..] + []], at)
  {
    var front, back := was[k][..SPLIT_POINT], was[k][SPLIT_POINT..];
    assert was[k] == front + back;
    var linked := was[..k + 1] + [[]] + was[k + 1..];
    var now, cut := linked[k := front][k + 1 := back + []], was[..k] + [front, back] + was[k + 1..];
    forall i | 0 <= i < |now|
      ensures now[i] == cut[i]
    {
      if i > k + 1 {
        assert now[i] == was[i - 1];
      }
    }
    assert now == cut;
    AddCut(was, k, front, back);
  }

  function AbsDiff(a: nat, b: nat): nat {
    if a <= b then b - a else a - b
  }

  predicate ShouldCombine(p1: Page, p2: Page) {
    if p1.len + p2.len > CAPACITY then false
    else if p1.len == 0 || p2.len == 0 then true
    else if p1.len + p2.len < CAPACITY / 4 then true
    else AbsDiff(p1.len, p2.len) >= CAPACITY / 8
  }

  /** A frame that holds no page yet. */
  method FreshFrame(m: Memory) returns (p: Ptr)
    ensures p !in m && p != NULL
  {
    var left := m.Keys;
    p := 1;
    while left != {}
      invariant p != NULL && left <= m.Keys
      invariant forall q :: q in m ==> q in left || q < p
      decreases left
    {
      var q :| q in left;
      left := left - {q};
      p := if q < p then p else q + 1;
    }
  }

  /** Where two pages touch, the list is not coalesced. */
  lemma TouchNotCoalesced(cs: seq<seq<Region>>, k: int)
    requires 0 <= k && k + 1 < |cs| && cs[k] != [] && cs[k + 1] != []
    requires cs[k][|cs[k]| - 1].end == cs[k + 1][0].start
    ensures !Coalesced(Flatten(cs))
  {
    MergeAtCut(cs, k);
  }

  /** A page and its neighbours, read as chunks. */
  lemma Neighbours(m: Memory, ps: seq<Ptr>, k: int)
    requires Chain(m, ps) && Full(Contents(m, ps)) && 0 <= k < |ps|
    ensures var cs, page := Contents(m, ps), m[ps[k]];
            && cs[k] == page.Live()
            && (page.prev == NULL <==> k == 0)
            && (k > 0 ==> page.prev == ps[k - 1] && cs[k - 1] == m[page.prev].Live() != [])
            && (page.next == NULL <==> k + 1 == |ps|)
            && (k + 1 < |ps| ==> page.next == ps[k + 1] && cs[k + 1] == m[page.next].Live() != [])
  {
    Links(m, ps, k);
    assert k > 0 ==> Contents(m, ps)[k - 1] != [];
    assert k + 1 < |ps| ==> Contents(m, ps)[k + 1] != [];
  }

  /** A search in a page is one in its chunk. */
  lemma ReadsSearched(m: Memory, ps: seq<Ptr>, k: int, s: Search, r: Region)
    requires Pages(m, ps) && 0 <= k < |ps| && Pos(s) <= m[ps[k]].len
    requires s.Found? ==> m[ps[k]].regions[s.i].end == r.start
    requires forall i :: 0 <= i < s.i ==> m[ps[k]].regions[i].end < r.start
    requires forall i :: Pos(s) <= i < m[ps[k]].len ==> r.start < m[ps[k]].regions[i].end
    requires k > 0 ==> Contents(m, ps)[k] != [] && Contents(m, ps)[k][0].start <= r.end
    requires k + 1 < |ps| ==> Contents(m, ps)[k + 1] != [] && r.end < Contents(m, ps)[k + 1][0].start
    ensures Searched(Contents(m, ps), k, s, r)
  {
    assert Contents(m, ps)[k] == m[ps[k]].Live();
  }

  class VirtualAllocator {
    var head: Ptr
    var mem: Memory
    ghost var chain: seq<Ptr>

    /** The chain is well linked and no page is empty unless it is the only one. */
    ghost predicate Linked()
      reads this
    {
      && head == At(chain, 0)
      && Chain(mem, chain)
      && Full(Contents(mem, chain))
    }

    ghost function Free(): iset<int>
      reads this
    {
      FreeAddrs(AllRegions(mem, chain))
    }

    /** What every public operation keeps. */
    ghost predicate Valid()
      reads this
    {
      Linked() && Coalesced(AllRegions(mem, chain))
    }

    constructor ()
      ensures Valid() && Free() == iset{}
    {
      head := NULL;
      mem := map[];
      chain := [];
    }

    /** Rewrites the regions of two neighbouring pages. */
    method WritePair(p: Ptr, page: Page, q: Ptr, page': Page, ghost k: int)
      requires head == At(chain, 0) && Chain(mem, chain) && 0 <= k && k + 1 < |chain| && chain[k] == p && chain[k + 1] == q
      requires page.Shape() && page.SameLinks(mem[p]) && page'.Shape() && page'.SameLinks(mem[q])
      modifies this`mem
      ensures mem == old(mem)[p := page][q := page']
      ensures Chain(mem, chain) && Contents(mem, chain) == old(Contents(mem, chain))[k := page.Live()][k + 1 := page'.Live()]
    {
      EditPair(mem, chain, k, page, page');
      mem := mem[p := page][q := page'];
    }

    // ---- splitting a full page ----

    /** The split as the code performs it. The flattened list is unchanged, the returned index
        names the same position of it, and the back links are right exactly when no new page
        was put in front of a successor. */
    method SplitAsWritten(p: Ptr, idx: nat, ghost k: int) returns (at: SplitIndex)
      requires Linked() && 0 <= k < |chain| && chain[k] == p
      requires mem[p].len == CAPACITY && idx <= CAPACITY
      modifies this`mem, this`chain
      ensures head == At(chain, 0) && Pages(mem, chain) && Forward(mem, chain)
      ensures k < |chain| && chain[k] == p && BackwardExcept(mem, chain, k + 2)
      ensures Backward(mem, chain) <==> !old(StrandsSuccessor(mem, p))
      ensures SplitKeeps(old(Contents(mem, chain)), k, idx, Contents(mem, chain), at)
      ensures |chain| == |old(chain)| || |chain| == |old(chain)| + 1
      ensures old(StrandsSuccessor(mem, p)) ==> |chain| == |old(chain)| + 1 && k + 2 < |chain| && mem[chain[k + 2]].prev == p
    {
      Links(mem, chain, k);
      if HasRoom(mem, mem[p].prev) {
        at := SplitIntoPrev(p, idx, k);
      } else if HasRoom(mem, mem[p].next) {
        at := SplitIntoNext(p, idx, k);
      } else {
        at := SplitIntoNewPage(p, idx, k);
      }
    }

    method SplitIntoPrev(p: Ptr, idx: nat, ghost k: int) returns (at: SplitIndex)
      requires Linked() && 0 <= k < |chain| && chain[k] == p
      requires mem[p].len == CAPACITY && idx <= CAPACITY && HasRoom(mem, mem[p].prev)
      modifies this`mem
      ensures Linked() && SplitKeeps(old(Contents(mem, chain)), k, idx, Contents(mem, chain), at)
    {
      Neighbours(mem, chain, k);
      ghost var was := Contents(mem, chain);
      var q := mem[p].prev;
      at := if idx < SPLIT_POINT then Prev(mem[q].len + idx) else This(idx - SPLIT_POINT);
      var front := mem[p].regions[..SPLIT_POINT];
      assert front == was[k][..SPLIT_POINT];
      WritePair(q, mem[q].Append(front), p, mem[p].DropFront(SPLIT_POINT), k - 1);
      SplitPrevKeeps(was, k, idx);
    }

    method SplitIntoNext(p: Ptr, idx: nat, ghost k: int) returns (at: SplitIndex)
      requires Linked() && 0 <= k < |chain| && chain[k] == p
      requires mem[p].len == CAPACITY && idx <= CAPACITY && HasRoom(mem, mem[p].next)
      modifies this`mem
      ensures Linked() && SplitKeeps(old(Contents(mem, chain)), k, idx, Contents(mem, chain), at)
    {
      Neighbours(mem, chain, k);
      ghost var was := Contents(mem, chain);
      var q := mem[p].next;
      at := if idx >= SPLIT_POINT then Next(idx - SPLIT_POINT) else This(idx);
      var back := mem[p].regions[SPLIT_POINT..mem[p].len];
      assert back == was[k][SPLIT_POINT..];
      WritePair(p, mem[p].Truncate(SPLIT_POINT), q, mem[q].Prepend(back), k);
      SplitNextKeeps(was, k, idx);
    }

    method SplitIntoNewPage(p: Ptr, idx: nat, ghost k: int) returns (at: SplitIndex)
      requires Linked() && 0 <= k < |chain| && chain[k] == p
      requires mem[p].len == CAPACITY && idx <= CAPACITY
      modifies this`mem, this`chain
      ensures head == At(chain, 0) && Pages(mem, chain) && Forward(mem, chain)
      ensures |chain| == |old(chain)| + 1 && chain[k] == p && BackwardExcept(mem, chain, k + 2)
      ensures k + 2 < |chain| ==> mem[chain[k + 2]].prev == p && chain[k + 1] != p
      ensures SplitKeeps(old(Contents(mem, chain)), k, idx, Contents(mem, chain), at)
    {
      ghost var was := Contents(mem, chain);
      LinkEmptyPage(p, k);
      var n := mem[p].next;
      assert n == chain[k + 1];
      at := if idx >= SPLIT_POINT then Next(idx - SPLIT_POINT) else This(idx);
      var back := mem[p].regions[SPLIT_POINT..mem[p].len];
      ghost var before := mem;
      assert Contents(mem, chain)[k] == was[k] && Contents(mem, chain)[k + 1] == [];
      EditPair(mem, chain, k, mem[p].Truncate(SPLIT_POINT), mem[n].Prepend(back));
      mem := mem[p := mem[p].Truncate(SPLIT_POINT)][n := mem[n].Prepend(back)];
      TransferLinks(before, mem, chain, k + 2);
      SplitNewKeeps(was, k, idx);
    }

    /** Links a new empty page behind `p` and leaves the old successor as it was. */
    method LinkEmptyPage(p: Ptr, ghost k: int)
      requires Linked() && 0 <= k < |chain| && chain[k] == p
      modifies this`mem, this`chain
      ensures head == At(chain, 0) && Pages(mem, chain) && Forward(mem, chain)
      ensures |chain| == |old(chain)| + 1 && chain[k] == p && BackwardExcept(mem, chain, k + 2)
      ensures k + 2 < |chain| ==> mem[chain[k + 2]].prev == p
      ensures mem[p].len == old(mem[p].len)
      ensures mem[chain[k + 1]].len == 0
      ensures Contents(mem, chain)
              == old(Contents(mem, chain))[..k + 1] + [[]] + old(Contents(mem, chain))[k + 1..]
    {
      var n := FreshFrame(mem);
      var e := EmptyPage().(prev := p, next := mem[p].next);
      assert e.Live() == [];
      LinkNewPage(mem, chain, k, n, e);
      NewPageContents(mem, chain, k, n, e);
      mem := mem[n := e][p := mem[p].(next := n)];
      chain := InsertAfter(chain, k, n);
    }

    /** The step the code leaves out: the successor of a page just linked behind `p` is made to
        point back at it. It changes nothing when the chain is already right. */
    method RelinkSuccessor(p: Ptr, ghost k: int)
      requires head == At(chain, 0) && Pages(mem, chain) && Forward(mem, chain)
      requires 0 <= k < |chain| && chain[k] == p && BackwardExcept(mem, chain, k + 2)
      modifies this`mem
      ensures Chain(mem, chain) && Contents(mem, chain) == old(Contents(mem, chain))
      ensures old(Backward(mem, chain)) ==> mem == old(mem)
    {
      var n := mem[p].next;
      assert k + 1 < |chain| ==> n == chain[k + 1];
      if n != NULL {
        var s := mem[n].next;
        assert k + 2 < |chain| ==> s == chain[k + 2];
        if s != NULL {
          RelinkPage(mem, chain, k + 2);
          if Backward(mem, chain) {
            Links(mem, chain, k + 2);
            assert mem[s := mem[s].(prev := n)] == mem;
          }
          mem := mem[s := mem[s].(prev := n)];
        }
      }
    }

    /** The split with its back-link step: the chain stays well linked in every case. */
    method Split(p: Ptr, idx: nat, ghost k: int) returns (at: SplitIndex)
      requires Linked() && 0 <= k < |chain| && chain[k] == p
      requires mem[p].len == CAPACITY && idx <= CAPACITY
      modifies this`mem, this`chain
      ensures Linked() && SplitKeeps(old(Contents(mem, chain)), k, idx, Contents(mem, chain), at)
      ensures k < |chain| && chain[k] == p
    {
      at := SplitAsWritten(p, idx, k);
      RelinkSuccessor(p, k);
    }

    // ---- combining small pages ----

    method CombinePages(p1: Ptr, p2: Ptr, ghost k: int)
      requires head == At(chain, 0) && Chain(mem, chain)
      requires 0 <= k && k + 1 < |chain| && chain[k] == p1 && chain[k + 1] == p2
      requires mem[p1].len + mem[p2].len <= CAPACITY
      modifies this`mem, this`chain
      ensures head == At(chain, 0) && Chain(mem, chain)
      ensures chain == DropAt(old(chain), k + 1)
      ensures Contents(mem, chain) == old(Contents(mem, chain))[..k]
              + [old(Contents(mem, chain))[k] + old(Contents(mem, chain))[k + 1]]
              + old(Contents(mem, chain))[k + 2..]
      ensures AllRegions(mem, chain) == old(AllRegions(mem, chain))
      ensures old(FullExcept(Contents(mem, chain), k) || FullExcept(Contents(mem, chain), k + 1)) ==> FullExcept(Contents(mem, chain), k)
    {
      ghost var cs := Contents(mem, chain);
      UnlinkNext(p1, p2, k);
      JoinChunks(cs, k);
      if FullExcept(cs, k) || FullExcept(cs, k + 1) {
        JoinKeepsFull(cs, k);
      }
    }

    /** Takes the regions of the second page over into the first and unlinks the second. */
    method UnlinkNext(p1: Ptr, p2: Ptr, ghost k: int)
      requires head == At(chain, 0) && Chain(mem, chain)
      requires 0 <= k && k + 1 < |chain| && chain[k] == p1 && chain[k + 1] == p2
      requires mem[p1].len + mem[p2].len <= CAPACITY
      modifies this`mem, this`chain
      ensures head == At(chain, 0) && Chain(mem, chain)
      ensures chain == DropAt(old(chain), k + 1)
      ensures Contents(mem, chain) == old(Contents(mem, chain))[..k]
              + [old(Contents(mem, chain))[k] + old(Contents(mem, chain))[k + 1]]
              + old(Contents(mem, chain))[k + 2..]
    {
      Links(mem, chain, k + 1);
      assert Contents(mem, chain)[k] == mem[p1].Live() && Contents(mem, chain)[k + 1] == mem[p2].Live();
      ghost var was := mem;
      var page := mem[p1].Append(mem[p2].regions[..mem[p2].len]).(next := mem[p2].next);
      var s := mem[p2].next;
      mem := mem[p1 := page];
      if s != NULL {
        mem := mem[s := mem[s].(prev := p1)];
      }
      mem := mem - {p2};
      assert mem == Without(was, p1, p2, page);
      WithoutIs(was, chain, k, page);
      UnlinkPage(was, chain, k, page, mem);
      UnlinkContents(was, chain, k, page, mem);
      chain := DropAt(chain, k + 1);
    }

    /** Combines `p` with its neighbours while they are small. Each combination removes a page,
        so the recursion ends; the list is unchanged and an empty `p` is absorbed. */
    method CombineIfSmall(p: Ptr, ghost k: int) returns (q: Ptr)
      requires head == At(chain, 0) && Chain(mem, chain) && 0 <= k < |chain| && chain[k] == p
      requires FullExcept(Contents(mem, chain), k)
      modifies this`mem, this`chain
      ensures Linked()
      ensures AllRegions(mem, chain) == old(AllRegions(mem, chain))
      ensures |chain| <= |old(chain)| && q in chain
      decreases |chain|
    {
      Links(mem, chain, k);
      var prev, next := mem[p].prev, mem[p].next;
      ghost var was := Contents(mem, chain);
      if prev != NULL && ShouldCombine(mem[prev], mem[p]) {
        CombinePages(prev, p, k - 1);
        q := CombineIfSmall(prev, k - 1);
      } else if next != NULL && ShouldCombine(mem[p], mem[next]) {
        CombinePages(p, next, k);
        q := CombineIfSmall(p, k);
      } else {
        q := p;
        assert |was| > 1 ==> was[k] != [];
      }
    }

    // ---- coalescing across a page boundary ----

    /** Merges the last region of `p` into the first region of the next page when they touch. */
    method TryCoalesceAt(p: Ptr, ghost k: int) returns (merged: bool)
      requires head == At(chain, 0) && Chain(mem, chain) && 0 <= k < |chain| && chain[k] == p
      requires TouchesOnlyAt(AllRegions(mem, chain), Off(Contents(mem, chain), k + 1))
      requires Full(Contents(mem, chain))
               || (FullExcept(Contents(mem, chain), k - 1) && Coalesced(AllRegions(mem, chain)))
      modifies this`mem, this`chain
      ensures !merged ==> mem == old(mem) && chain == old(chain)
      ensures old(Coalesced(AllRegions(mem, chain))) ==> !merged
      ensures Coalesced(AllRegions(mem, chain))
      ensures FreeAddrs(AllRegions(mem, chain)) == old(FreeAddrs(AllRegions(mem, chain)))
      ensures head == At(chain, 0) && Chain(mem, chain)
      ensures old(Full(Contents(mem, chain))) ==> Full(Contents(mem, chain))
      decreases |chain| - k
    {
      Links(mem, chain, k);
      ghost var was := Contents(mem, chain);
      FlattenAround(was, k);
      var next := mem[p].next;
      if mem[p].len == 0 || next == NULL {
        merged := false;
        assert |was| > 1 ==> was[k] != [];
        CoalescedUnlessCut(was, k);
      } else if mem[p].regions[mem[p].len - 1].end == mem[next].regions[0].start {
        merged := true;
        TouchNotCoalesced(was, k);
        CoalescePair(p, next, k);
        if mem[next].len == 1 {
          ghost var now := Contents(mem, chain);
          FlattenAround(now, k + 1);
          CoalescedIsOrdered(Flatten(now), Off(now, k + 2));
          var again := TryCoalesceAt(next, k + 1);
        }
        var q := CombineIfSmall(p, k);
      } else {
        merged := false;
        CoalescedUnlessCut(was, k);
      }
    }

    /** Merges the last region of `p` with the first one of the next page, which it touches. */
    method CoalescePair(p: Ptr, next: Ptr, ghost k: int)
      requires head == At(chain, 0) && Chain(mem, chain) && Full(Contents(mem, chain))
      requires 0 <= k && k + 1 < |chain| && chain[k] == p && chain[k + 1] == next
      requires mem[p].len > 0 && mem[next].len > 0
      requires mem[p].regions[mem[p].len - 1].end == mem[next].regions[0].start
      requires TouchesOnlyAt(AllRegions(mem, chain), Off(Contents(mem, chain), k + 1))
      modifies this`mem
      ensures Chain(mem, chain) && FullExcept(Contents(mem, chain), k)
      ensures Coalesced(AllRegions(mem, chain)) && FreeAddrs(AllRegions(mem, chain)) == old(FreeAddrs(AllRegions(mem, chain)))
    {
      ghost var was := Contents(mem, chain);
      assert was[k] == mem[p].Live() && was[k + 1] == mem[next].Live();
      CoalesceAtCut(was, k);
      MergePair(p, next, k);
    }

    /** Moves the last region of `p` into the first region of the next page. */
    method MergePair(p: Ptr, next: Ptr, ghost k: int)
      requires head == At(chain, 0) && Chain(mem, chain)
      requires 0 <= k && k + 1 < |chain| && chain[k] == p && chain[k + 1] == next
      requires mem[p].len > 0 && mem[next].len > 0
      modifies this`mem
      ensures Chain(mem, chain) && Contents(mem, chain) == MergedAtCut(old(Contents(mem, chain)), k)
    {
      ghost var was := Contents(mem, chain);
      assert was[k] == mem[p].Live() && was[k + 1] == mem[next].Live();
      var y := mem[next].regions[0].(start := mem[p].regions[mem[p].len - 1].start);
      assert mem[next].SetRegion(0, y).Live() == [y] + was[k + 1][1..];
      assert mem[p].Truncate(mem[p].len - 1).Live() == was[k][..|was[k]| - 1];
      WritePair(p, mem[p].Truncate(mem[p].len - 1), next, mem[next].SetRegion(0, y), k);
    }

    // ---- freeing ----

    /** Walks to the last page that does not start past the end of the region. */
    method FindPage(region: Region) returns (p: Ptr, ghost k: int)
      requires Valid() && head != NULL
      ensures 0 <= k < |chain| && chain[k] == p
      ensures k > 0 ==> Contents(mem, chain)[k] != [] && Contents(mem, chain)[k][0].start <= region.end
      ensures k + 1 < |chain| ==> Contents(mem, chain)[k + 1] != [] && region.end < Contents(mem, chain)[k + 1][0].start
    {
      ghost var cs: seq<seq<Region>> := Contents(mem, chain);
      p, k := head, 0;
      Links(mem, chain, k);
      while mem[p].next != NULL && mem[mem[p].next].regions[0].start <= region.end
        invariant 0 <= k < |chain| && chain[k] == p
        invariant mem[p].next == At(chain, k + 1)
        invariant k + 1 < |chain| ==> cs[k + 1] != [] && mem[chain[k + 1]].Live() == cs[k + 1]
        invariant k > 0 ==> cs[k] != [] && cs[k][0].start <= region.end
        decreases |chain| - k
      {
        p, k := mem[p].next, k + 1;
        Links(mem, chain, k);
      }
    }

    /** Binary search by region end, and the check that no part of the region is free already:
        only the two neighbours of the position are looked at. */
    method FindIdxForRegionInsert(p: Ptr, region: Region, ghost k: int) returns (s: Search, alreadyFree: bool)
      requires Valid() && Proper(region) && 0 <= k < |chain| && chain[k] == p
      requires k > 0 ==> Contents(mem, chain)[k] != [] && Contents(mem, chain)[k][0].start <= region.end
      requires k + 1 < |chain| ==> Contents(mem, chain)[k + 1] != [] && region.end < Contents(mem, chain)[k + 1][0].start
      ensures Searched(Contents(mem, chain), k, s, region)
      ensures alreadyFree <==> Conflict(AllRegions(mem, chain), Off(Contents(mem, chain), k) + Pos(s), region)
      ensures alreadyFree <==> !(Addrs(region) !! Free())
      ensures Pos(s) <= mem[p].len && (!alreadyFree ==> FreeSpot(Contents(mem, chain), k, s, region))
    {
      s := SearchByEnd(p, region.start, k);
      ReadsSearched(mem, chain, k, s, region);
      alreadyFree := CheckAlreadyFree(p, region, s, k);
      AlreadyFreeIsOverlap(Contents(mem, chain), k, s, region);
    }

    method CheckAlreadyFree(p: Ptr, region: Region, s: Search, ghost k: int) returns (b: bool)
      requires Linked() && 0 <= k < |chain| && chain[k] == p && Pos(s) <= mem[p].len
      ensures Pos(s) <= |Contents(mem, chain)[k]| && Full(Contents(mem, chain))
      ensures b == AlreadyFree(Contents(mem, chain), k, s, region)
    {
      ghost var cs: seq<seq<Region>> := Contents(mem, chain);
      Neighbours(mem, chain, k);
      var page := mem[p];
      var before := if Pos(s) > 0 then region.start < page.regions[Pos(s) - 1].end
                    else page.prev != NULL && region.start < mem[page.prev].regions[mem[page.prev].len - 1].end;
      assert before == if Pos(s) > 0 then region.start < cs[k][Pos(s) - 1].end
                       else k > 0 && region.start < cs[k - 1][|cs[k - 1]| - 1].end;
      var after := if Pos(s) < page.len then page.regions[Pos(s)].start < region.end
                   else page.next != NULL && mem[page.next].regions[0].start < region.end;
      b := before || after;
    }

    method SearchByEnd(p: Ptr, start: int, ghost k: int) returns (s: Search)
      requires Valid() && 0 <= k < |chain| && chain[k] == p
      ensures Pos(s) <= mem[p].len
      ensures s.Found? ==> mem[p].regions[s.i].end == start
      ensures forall i :: 0 <= i < s.i ==> mem[p].regions[i].end < start
      ensures forall i :: Pos(s) <= i < mem[p].len ==> start < mem[p].regions[i].end
    {
      var live := mem[p].Live();
      ChunkCoalesced(Contents(mem, chain), k);
      var keys := seq(|live|, i requires 0 <= i < |live| => live[i].end);
      forall i, j | 0 <= i < j < |keys|
        ensures keys[i] < keys[j]
      {
        assert Proper(live[j]);
      }
      s := BinarySearch(keys, start);
      assert forall i :: 0 <= i < |live| ==> keys[i] == mem[p].regions[i].end;
    }

    /** Rewrites the regions of page `p`. */
    method WritePage(p: Ptr, page: Page, ghost k: int)
      requires head == At(chain, 0) && Chain(mem, chain) && 0 <= k < |chain| && chain[k] == p
      requires page.Shape() && page.SameLinks(mem[p])
      modifies this`mem
      ensures mem == old(mem)[p := page]
      ensures Chain(mem, chain) && Contents(mem, chain) == old(Contents(mem, chain))[k := page.Live()]
    {
      EditPage(mem, chain, k, page);
      mem := mem[p := page];
    }

    /** Rewrites one region of a page. */
    method SetAt(p: Ptr, idx: nat, z: Region, ghost k: int)
      requires Linked() && 0 <= k < |chain| && chain[k] == p && idx < mem[p].len
      modifies this`mem
      ensures Linked() && idx < |old(Contents(mem, chain))[k]|
      ensures Contents(mem, chain) == old(Contents(mem, chain))
              [k := old(Contents(mem, chain))[k][..idx] + [z] + old(Contents(mem, chain))[k][idx + 1..]]
    {
      assert Contents(mem, chain)[k] == mem[p].Live();
      WritePage(p, mem[p].SetRegion(idx, z), k);
    }

    /** The freed region joins two regions of the page. */
    method JoinBoth(p: Ptr, idx: nat, region: Region, ghost k: int)
      requires Valid() && Proper(region) && 0 <= k < |chain| && chain[k] == p
      requires FreeSpot(Contents(mem, chain), k, Found(idx), region)
      requires idx + 1 < mem[p].len && mem[p].regions[idx + 1].start == region.end
      modifies this`mem
      ensures Linked() && Placed(old(Contents(mem, chain)), region, Contents(mem, chain), k, idx)
    {
      ghost var cs: seq<seq<Region>> := Contents(mem, chain);
      assert cs[k] == mem[p].Live();
      PlaceBetween(cs, k, idx, region);
      WritePage(p, mem[p].JoinNext(idx), k);
    }

    /** The freed region extends a region at its end. */
    method ExtendEnd(p: Ptr, idx: nat, region: Region, ghost k: int)
      requires Valid() && Proper(region) && 0 <= k < |chain| && chain[k] == p
      requires FreeSpot(Contents(mem, chain), k, Found(idx), region) && idx < mem[p].len
      requires idx + 1 < mem[p].len ==> mem[p].regions[idx + 1].start != region.end
      modifies this`mem
      ensures Linked() && Placed(old(Contents(mem, chain)), region, Contents(mem, chain), k, idx)
    {
      ghost var cs: seq<seq<Region>> := Contents(mem, chain);
      assert cs[k] == mem[p].Live();
      PlaceAfter(cs, k, idx, region);
      SetAt(p, idx, mem[p].regions[idx].(end := region.end), k);
    }

    /** The freed region extends a region at its start. */
    method ExtendStart(p: Ptr, idx: nat, region: Region, ghost k: int)
      requires Valid() && Proper(region) && 0 <= k < |chain| && chain[k] == p
      requires FreeSpot(Contents(mem, chain), k, Missing(idx), region)
      requires idx < mem[p].len && mem[p].regions[idx].start == region.end
      modifies this`mem
      ensures Linked() && Placed(old(Contents(mem, chain)), region, Contents(mem, chain), k, idx)
    {
      ghost var cs: seq<seq<Region>> := Contents(mem, chain);
      assert cs[k] == mem[p].Live();
      PlaceBefore(cs, k, idx, region);
      SetAt(p, idx, mem[p].regions[idx].(start := region.start), k);
    }

    /** The freed region becomes a region of its own, in a page split for it if need be. */
    method InsertAlone(p: Ptr, idx: nat, region: Region, ghost k: int) returns (q: Ptr, i: nat, ghost k': int)
      requires Valid() && Proper(region) && 0 <= k < |chain| && chain[k] == p
      requires FreeSpot(Contents(mem, chain), k, Missing(idx), region) && idx <= mem[p].len
      requires idx < mem[p].len ==> mem[p].regions[idx].start != region.end
      modifies this`mem, this`chain
      ensures Linked() && Placed(old(Contents(mem, chain)), region, Contents(mem, chain), k', i)
      ensures 0 <= k' < |chain| && chain[k'] == q
    {
      ghost var cs: seq<seq<Region>> := Contents(mem, chain);
      assert cs[k] == mem[p].Live();
      q, i, k' := MakeRoom(p, idx, k);
      ghost var now: seq<seq<Region>> := Contents(mem, chain);
      assert now[k'] == mem[q].Live();
      PlaceAlone(cs, k, idx, region, now, k', i);
      InsertInto(q, i, region, k');
    }

    method InsertInto(p: Ptr, idx: nat, region: Region, ghost k: int)
      requires Linked() && 0 <= k < |chain| && chain[k] == p && mem[p].len < CAPACITY && idx <= mem[p].len
      modifies this`mem
      ensures Linked() && idx <= |old(Contents(mem, chain))[k]|
      ensures Contents(mem, chain) == old(Contents(mem, chain))
              [k := old(Contents(mem, chain))[k][..idx] + [region] + old(Contents(mem, chain))[k][idx..]]
    {
      assert Contents(mem, chain)[k] == mem[p].Live();
      WritePage(p, mem[p].InsertRegion(region, idx), k);
    }

    /** Splits a full page and finds where the index went. */
    method MakeRoom(p: Ptr, idx: nat, ghost k: int) returns (q: Ptr, i: nat, ghost k': int)
      requires Linked() && 0 <= k < |chain| && chain[k] == p && idx <= mem[p].len
      modifies this`mem, this`chain
      ensures Linked() && AllRegions(mem, chain) == old(AllRegions(mem, chain))
      ensures 0 <= k' < |chain| && chain[k'] == q && mem[q].len < CAPACITY && i <= mem[q].len
      ensures old(idx < mem[p].len) ==> i < mem[q].len
      ensures Off(Contents(mem, chain), k') + i == old(Off(Contents(mem, chain), k)) + idx
    {
      if mem[p].len == CAPACITY {
        var at := Split(p, idx, k);
        Links(mem, chain, k);
        k' := PageOf(at, k);
        match at {
          case Prev(j) => q, i := mem[p].prev, j;
          case This(j) => q, i := p, j;
          case Next(j) => q, i := mem[p].next, j;
        }
        assert Contents(mem, chain)[k'] == mem[q].Live();
      } else {
        q, i, k' := p, idx, k;
      }
    }

    /** The four ways in which a freed region meets the regions of the page. */
    method Place(p: Ptr, s: Search, region: Region, ghost k: int) returns (q: Ptr, idx: nat, ghost k': int)
      requires Valid() && Proper(region) && 0 <= k < |chain| && chain[k] == p
      requires FreeSpot(Contents(mem, chain), k, s, region) && Pos(s) <= mem[p].len
      modifies this`mem, this`chain
      ensures Linked() && Placed(old(Contents(mem, chain)), region, Contents(mem, chain), k', idx)
      ensures 0 <= k' < |chain| && chain[k'] == q
    {
      q, k' := p, k;
      match s {
        case Found(i) =>
          idx := i;
          if i + 1 < mem[p].len && mem[p].regions[i + 1].start == region.end {
            JoinBoth(p, i, region, k);
          } else {
            ExtendEnd(p, i, region, k);
          }
        case Missing(i) =>
          if i < mem[p].len && mem[p].regions[i].start == region.end {
            idx := i;
            ExtendStart(p, i, region, k);
          } else {
            q, idx, k' := InsertAlone(p, i, region, k);
          }
      }
    }

    /** Frees a region. The call fails (the kernel panics) exactly when the region is not page
        aligned or some address of it is free already; otherwise exactly its addresses are
        added to the free set. */
    method FreeRegion(region: Region) returns (ok: bool)
      requires Valid() && region.start <= region.end
      modifies this
      ensures Valid()
      ensures ok <==> PageAligned(region) && Addrs(region) !! old(Free())
      ensures Free() == if ok then old(Free()) + Addrs(region) else old(Free())
    {
      if !PageAligned(region) {
        return false;
      }
      if region.start == region.end {
        return true;
      }
      if head == NULL {
        FirstPage();
      }
      var p, k := FindPage(region);
      var s, alreadyFree := FindIdxForRegionInsert(p, region, k);
      if alreadyFree {
        return false;
      }
      var idx;
      p, idx, k := Place(p, s, region, k);
      assert Look(0);
      assert Contents(mem, chain)[k] == mem[p].Live();
      CoalesceAround(p, idx, k);
      return true;
    }

    method FirstPage()
      requires Valid() && head == NULL
      modifies this
      ensures Valid() && head != NULL && Free() == old(Free())
    {
      var n := FreshFrame(mem);
      mem := mem[n := EmptyPage()];
      head := n;
      assert AllRegions(mem, chain) == [];
      chain := [n];
      SinglePage(mem, n);
    }

    /** The two coalescing attempts that end a free. */
    method CoalesceAround(p: Ptr, idx: nat, ghost k: int)
      requires Linked() && 0 <= k < |chain| && chain[k] == p && idx < mem[p].len
      requires TouchesOnlyAt(AllRegions(mem, chain), Off(Contents(mem, chain), k) + idx)
      requires idx > 0 || k == 0 ==> Coalesced(AllRegions(mem, chain))
      modifies this`mem, this`chain
      ensures Valid() && Free() == old(Free())
    {
      Links(mem, chain, k);
      var coalesced := false;
      if idx == 0 && mem[p].prev != NULL {
        coalesced := TryCoalesceAt(mem[p].prev, k - 1);
      }
      if !coalesced && idx == mem[p].len - 1 {
        CoalescedIsOrdered(AllRegions(mem, chain), Off(Contents(mem, chain), k + 1));
        coalesced := TryCoalesceAt(p, k);
      }
    }

    // ---- allocating ----

    /** Allocates the first region that is large enough, page by page and from the back of each
        page, and cuts the allocation off its front. Nothing is returned exactly when no run of
        `size` free addresses exists. */
    method Alloc(size: nat) returns (r: Allocation)
      requires Valid()
      modifies this
      ensures Valid()
      ensures r.Panicked? <==> size % PAGE_SIZE != 0
      ensures r.OutOfSpace? ==> forall a :: !FreeRun(old(Free()), a, size)
      ensures r.Allocated? ==> r.region.end == r.region.start + size && PageAligned(r.region)
      ensures r.Allocated? ==> FreeRun(old(Free()), r.region.start, size)
      ensures Free() == if r.Allocated? then old(Free()) - Addrs(r.region) else old(Free())
    {
      if size % PAGE_SIZE != 0 {
        return Panicked;
      }
      if size == 0 {
        return Allocated(Region(PAGE_SIZE, PAGE_SIZE));
      }
      var found, p, idx, k := FindFit(size);
      if !found {
        assert Free() == old(Free());
        return OutOfSpace;
      }
      var region := TakeFront(p, idx, size, k);
      return Allocated(region);
    }

    /** The first page, front to back, and in it the last region with room for `size` bytes. */
    method FindFit(size: nat) returns (found: bool, p: Ptr, idx: nat, ghost k: int)
      requires Valid() && size > 0
      ensures found ==> 0 <= k < |chain| && chain[k] == p && idx < mem[p].len
      ensures found ==> size <= mem[p].regions[idx].end - mem[p].regions[idx].start
      ensures !found ==> forall a :: !FreeRun(Free(), a, size)
    {
      p, k, idx := head, 0, 0;
      ghost var cs: seq<seq<Region>> := Contents(mem, chain);
      while p != NULL
        invariant 0 <= k <= |chain| && p == At(chain, k)
        invariant forall i :: 0 <= i < k ==> TooSmall(cs[i], size)
        decreases |chain| - k
      {
        assert cs[k] == mem[p].Live();
        var i := LastFit(mem[p].Live(), size);
        if i >= 0 {
          return true, p, i, k;
        }
        assert TooSmall(cs[k], size);
        Links(mem, chain, k);
        p, k := mem[p].next, k + 1;
      }
      NoFit(cs, size);
      return false, p, idx, k;
    }

    /** Takes `size` bytes from the front of region `idx`, which disappears when used up. */
    method TakeFront(p: Ptr, idx: nat, size: nat, ghost k: int) returns (r: Region)
      requires Valid() && 0 <= k < |chain| && chain[k] == p && idx < mem[p].len
      requires 0 < size <= mem[p].regions[idx].end - mem[p].regions[idx].start && size % PAGE_SIZE == 0
      modifies this`mem, this`chain
      ensures Valid() && r.end == r.start + size && PageAligned(r)
      ensures Addrs(r) <= old(Free()) && Free() == old(Free()) - Addrs(r)
    {
      ghost var cs: seq<seq<Region>> := Contents(mem, chain);
      var x := mem[p].regions[idx];
      assert cs[k] == mem[p].Live() && x == cs[k][idx];
      r := Region(x.start, x.start + size);
      ChunkCoalesced(cs, k);
      assert Proper(x);
      if x.end - x.start == size {
        CarveChunk(cs, k, idx, r, []);
        assert cs[k][..idx] + [] + cs[k][idx + 1..] == cs[k][..idx] + cs[k][idx + 1..];
        RemoveAt(p, idx, k);
      } else {
        CarveChunk(cs, k, idx, r, [x.(start := x.start + size)]);
        SetAt(p, idx, x.(start := x.start + size), k);
      }
    }

    /** Removes a region and combines the page with its neighbours if it became small. */
    method RemoveAt(p: Ptr, idx: nat, ghost k: int)
      requires Linked() && 0 <= k < |chain| && chain[k] == p && idx < mem[p].len
      modifies this`mem, this`chain
      ensures Linked()
      ensures idx < |old(Contents(mem, chain))[k]|
      ensures AllRegions(mem, chain) == Flatten(old(Contents(mem, chain))
              [k := old(Contents(mem, chain))[k][..idx] + old(Contents(mem, chain))[k][idx + 1..]])
    {
      assert Contents(mem, chain)[k] == mem[p].Live();
      WritePage(p, mem[p].RemoveRegion(idx), k);
      var q := CombineIfSmall(p, k);
    }

    // ---- reserving ----

    /** Takes a given region out of the free set. It succeeds exactly when all of the region is
        free, and changes nothing when it fails. */
    method Reserve(region: Region) returns (r: Reservation)
      requires Valid() && region.start <= region.end
      modifies this
      ensures Valid()
      ensures r.Refused? <==> !PageAligned(region)
      ensures r.Done? ==> (r.ok <==> Addrs(region) <= old(Free()))
      ensures Free() == if r.Done? && r.ok then old(Free()) - Addrs(region) else old(Free())
      ensures !(r.Done? && r.ok) ==> mem == old(mem) && chain == old(chain) && head == old(head)
    {
      if !PageAligned(region) {
        return Refused;
      }
      if region.start == region.end {
        return Done(true);
      }
      var found, p, idx, k := Locate(region);
      if found {
        CarveAt(p, idx, region, k);
      }
      return Done(found);
    }

    /** Looks for the free region that contains the given one. */
    method Locate(region: Region) returns (found: bool, p: Ptr, idx: nat, ghost k: int)
      requires Valid() && Proper(region)
      ensures found ==> 0 <= k < |chain| && chain[k] == p && idx < mem[p].len
      ensures found ==> mem[p].regions[idx].start <= region.start && region.end <= mem[p].regions[idx].end
      ensures !found ==> !(Addrs(region) <= Free())
    {
      p, k, idx := head, 0, 0;
      while p != NULL
        invariant 0 <= k <= |chain| && p == At(chain, k)
        invariant Below(Contents(mem, chain), k, region.start)
        decreases |chain| - k
      {
        Links(mem, chain, k);
        assert Contents(mem, chain)[k] == mem[p].Live();
        if mem[p].len > 0 {
          if region.start < mem[p].regions[0].start {
            StartNotFree(Contents(mem, chain), k, region);
            return false, p, idx, k;
          } else if region.start < mem[p].regions[mem[p].len - 1].end {
            idx := SearchByStart(p, region.start, k);
            if region.start < mem[p].regions[idx].end && region.end <= mem[p].regions[idx].end {
              return true, p, idx, k;
            }
            NotInside(Contents(mem, chain), k, idx, region);
            return false, p, idx, k;
          }
        }
        BelowStep(Contents(mem, chain), k, region.start);
        p, k := mem[p].next, k + 1;
      }
      StartNotFree(Contents(mem, chain), k, region);
      return false, p, idx, k;
    }

    /** The last region of the page that starts at or before the address. */
    method SearchByStart(p: Ptr, start: int, ghost k: int) returns (idx: nat)
      requires Valid() && 0 <= k < |chain| && chain[k] == p && mem[p].len > 0
      requires mem[p].regions[0].start <= start
      ensures idx < mem[p].len && mem[p].regions[idx].start <= start
      ensures idx + 1 < mem[p].len ==> start < mem[p].regions[idx + 1].start
    {
      var live := mem[p].Live();
      ChunkCoalesced(Contents(mem, chain), k);
      var keys := seq(|live|, i requires 0 <= i < |live| => live[i].start);
      forall i, j | 0 <= i < j < |keys|
        ensures keys[i] < keys[j]
      {
        assert Proper(live[i]);
      }
      var s := BinarySearch(keys, start);
      assert forall i :: 0 <= i < |live| ==> keys[i] == mem[p].regions[i].start;
      assert s.Missing? ==> s.i > 0;
      idx := if s.Found? then s.i else s.i - 1;
      assert idx + 1 < |live| ==> keys[idx] < keys[idx + 1];
    }

    /** Carves the given region out of region `idx`: it is removed, shortened at either end, or
        cut in two, in a page split for the second part if need be. */
    method CarveAt(p: Ptr, idx: nat, region: Region, ghost k: int)
      requires Valid() && Proper(region) && 0 <= k < |chain| && chain[k] == p && idx < mem[p].len
      requires mem[p].regions[idx].start <= region.start && region.end <= mem[p].regions[idx].end
      modifies this`mem, this`chain
      ensures Valid() && Addrs(region) <= old(Free()) && Free() == old(Free()) - Addrs(region)
    {
      ghost var cs: seq<seq<Region>> := Contents(mem, chain);
      var x := mem[p].regions[idx];
      assert cs[k] == mem[p].Live() && x == cs[k][idx];
      if region.start == x.start && region.end == x.end {
        CarveChunk(cs, k, idx, region, []);
        assert cs[k][..idx] + [] + cs[k][idx + 1..] == cs[k][..idx] + cs[k][idx + 1..];
        RemoveAt(p, idx, k);
      } else if region.start == x.start {
        CarveChunk(cs, k, idx, region, [x.(start := region.end)]);
        SetAt(p, idx, x.(start := region.end), k);
      } else if region.end == x.end {
        CarveChunk(cs, k, idx, region, [x.(end := region.start)]);
        SetAt(p, idx, x.(end := region.start), k);
      } else {
        CutInTwo(p, idx, region, k);
      }
    }

    method CutInTwo(p: Ptr, idx: nat, region: Region, ghost k: int)
      requires Valid() && Proper(region) && 0 <= k < |chain| && chain[k] == p && idx < mem[p].len
      requires mem[p].regions[idx].start < region.start && region.end < mem[p].regions[idx].end
      modifies this`mem, this`chain
      ensures Valid() && Addrs(region) <= old(Free()) && Free() == old(Free()) - Addrs(region)
    {
      ghost var cs: seq<seq<Region>> := Contents(mem, chain);
      var x := mem[p].regions[idx];
      assert cs[k] == mem[p].Live();
      var q, i, k' := MakeRoom(p, idx, k);
      ghost var now: seq<seq<Region>> := Contents(mem, chain);
      assert now[k'] == mem[q].Live();
      SamePlace(cs, k, idx, now, k', i);
      WriteTwo(q, i, x, region, k');
    }

    /** Shortens region `i` to the part before the carved region and inserts the part after it. */
    method WriteTwo(p: Ptr, i: nat, x: Region, region: Region, ghost k: int)
      requires Valid() && Proper(region) && 0 <= k < |chain| && chain[k] == p
      requires i < mem[p].len < CAPACITY && mem[p].regions[i] == x
      requires x.start < region.start && region.end < x.end
      modifies this`mem
      ensures Valid() && Addrs(region) <= old(Free()) && Free() == old(Free()) - Addrs(region)
    {
      ghost var cs: seq<seq<Region>> := Contents(mem, chain);
      var a, b := x.(end := region.start), Region(region.end, x.end);
      assert cs[k] == mem[p].Live();
      CarveChunk(cs, k, i, region, [a, b]);
      WritePage(p, mem[p].CutRegion(i, a, b), k);
    }
  }
}
