/** A list of regions cut into chunks, one chunk per allocator page.

    Splitting and combining pages move the cuts and leave the list alone; editing one page
    is a splice of the list at the offset of that page.
 */
module Chunks {
  import opened Regions

  /** The list read along the chunks. */
  function Flatten(cs: seq<seq<Region>>): (rs: seq<Region>) {
    if cs == [] then [] else cs[0] + Flatten(cs[1..])
  }

  /** The position in the list at which chunk `k` starts. */
  function Off(cs: seq<seq<Region>>, k: int): (n: nat)
    requires 0 <= k <= |cs|
  {
    |Flatten(cs[..k])|
  }

  /** No chunk is empty unless it is the only one. */
  ghost predicate Full(cs: seq<seq<Region>>) {
    |cs| > 1 ==> forall i :: 0 <= i < |cs| ==> cs[i] != []
  }

  /** No chunk is empty, except perhaps chunk `k`. */
  ghost predicate FullExcept(cs: seq<seq<Region>>, k: int) {
    forall i :: 0 <= i < |cs| && i != k ==> cs[i] != []
  }

  lemma {:induction false} FlattenConcat(a: seq<seq<Region>>, b: seq<seq<Region>>)
    ensures Flatten(a + b) == Flatten(a) + Flatten(b)
  {
    if a == [] {
      assert a + b == b;
    } else {
      FlattenConcat(a[1..], b);
      assert (a + b)[1..] == a[1..] + b;
      Associates(a[0], Flatten(a[1..]), Flatten(b));
    }
  }

  lemma Associates(a: seq<Region>, b: seq<Region>, c: seq<Region>)
    ensures a + (b + c) == (a + b) + c
  {
  }

  lemma FlattenOne(c: seq<Region>)
    ensures Flatten([c]) == c
  {
    assert [c][1..] == [];
  }

  /** The list around chunk `k`. */
  lemma FlattenAround(cs: seq<seq<Region>>, k: int)
    requires 0 <= k < |cs|
    ensures Flatten(cs) == Flatten(cs[..k]) + cs[k] + Flatten(cs[k + 1..])
    ensures Off(cs, k + 1) == Off(cs, k) + |cs[k]| <= |Flatten(cs)|
  {
    assert cs == cs[..k] + [cs[k]] + cs[k + 1..];
    FlattenConcat(cs[..k] + [cs[k]], cs[k + 1..]);
    FlattenConcat(cs[..k], [cs[k]]);
    FlattenOne(cs[k]);
    assert cs[..k + 1] == cs[..k] + [cs[k]];
  }

  /** Region `i` of chunk `k` sits at `Off(cs, k) + i`. */
  lemma FlattenAt(cs: seq<seq<Region>>, k: int, i: int)
    requires 0 <= k < |cs| && 0 <= i < |cs[k]|
    ensures Off(cs, k) + i < |Flatten(cs)|
    ensures Flatten(cs)[Off(cs, k) + i] == cs[k][i]
  {
    FlattenAround(cs, k);
  }

  lemma SpliceMiddle(a: seq<Region>, c: seq<Region>, b: seq<Region>, p: int, q: int, m: seq<Region>)
    requires 0 <= p <= q <= |c|
    ensures a + (c[..p] + m + c[q..]) + b == Splice(a + c + b, |a| + p, |a| + q, m)
  {
    var s := a + c + b;
    assert s[..|a| + p] == a + c[..p];
    assert s[|a| + q..] == c[q..] + b;
  }

  /** Editing chunk `k` splices the list. */
  lemma EditChunk(cs: seq<seq<Region>>, k: int, p: int, q: int, m: seq<Region>)
    requires 0 <= k < |cs| && 0 <= p <= q <= |cs[k]|
    ensures Off(cs, k) + q <= |Flatten(cs)|
    ensures Flatten(cs[k := cs[k][..p] + m + cs[k][q..]])
            == Splice(Flatten(cs), Off(cs, k) + p, Off(cs, k) + q, m)
  {
    FlattenAround(cs, k);
    ReplaceChunk(cs, k, cs[k][..p] + m + cs[k][q..]);
    SpliceMiddle(Flatten(cs[..k]), cs[k], Flatten(cs[k + 1..]), p, q, m);
  }

  /** A stretch of chunk `k` is one of the list. */
  lemma SliceChunk(cs: seq<seq<Region>>, k: int, p: int, q: int, rs: seq<Region>, a: int, b: int)
    requires 0 <= k < |cs| && 0 <= p <= q <= |cs[k]|
    requires rs == Flatten(cs) && a == Off(cs, k) + p && b == Off(cs, k) + q
    ensures b <= |rs| && rs[a..b] == cs[k][p..q]
  {
    FlattenAround(cs, k);
    SliceMiddle(Flatten(cs[..k]), cs[k], Flatten(cs[k + 1..]), p, q, rs);
  }

  lemma SliceMiddle(a: seq<Region>, c: seq<Region>, b: seq<Region>, p: int, q: int, rs: seq<Region>)
    requires 0 <= p <= q <= |c| && rs == a + c + b
    ensures |a| + q <= |rs| && rs[|a| + p..|a| + q] == c[p..q]
  {
    assert forall i :: 0 <= i < |c| ==> rs[|a| + i] == c[i];
  }

  /** Positions that are the same in the list hold the same region. */
  lemma SamePlace(cs: seq<seq<Region>>, k: int, i: nat, ds: seq<seq<Region>>, l: int, j: nat)
    requires Flatten(cs) == Flatten(ds) && 0 <= k < |cs| && i < |cs[k]| && 0 <= l < |ds| && j < |ds[l]|
    requires Off(cs, k) + i == Off(ds, l) + j
    ensures cs[k][i] == ds[l][j]
  {
    FlattenAt(cs, k, i);
    FlattenAt(ds, l, j);
  }

  /** Joining two chunks leaves one that may be empty only if both were. */
  lemma JoinKeepsFull(cs: seq<seq<Region>>, k: int)
    requires 0 <= k && k + 1 < |cs| && (FullExcept(cs, k) || FullExcept(cs, k + 1))
    ensures FullExcept(cs[..k] + [cs[k] + cs[k + 1]] + cs[k + 2..], k)
  {
  }

  /** The list around a chunk that was replaced. */
  lemma ReplaceChunk(cs: seq<seq<Region>>, k: int, c: seq<Region>)
    requires 0 <= k < |cs|
    ensures Flatten(cs[k := c]) == Flatten(cs[..k]) + c + Flatten(cs[k + 1..])
  {
    var ds := cs[k := c];
    FlattenAround(ds, k);
    assert ds[..k] == cs[..k] && ds[k + 1..] == cs[k + 1..];
  }

  /** Moving the cut between chunks `k` and `k + 1` leaves the list alone. */
  lemma MoveCut(cs: seq<seq<Region>>, k: int, c: seq<Region>, d: seq<Region>)
    requires 0 <= k && k + 1 < |cs| && c + d == cs[k] + cs[k + 1]
    ensures Flatten(cs[k := c][k + 1 := d]) == Flatten(cs)
    ensures Off(cs[k := c][k + 1 := d], k) == Off(cs, k)
    ensures Off(cs[k := c][k + 1 := d], k + 1) == Off(cs, k) + |c|
  {
    var ds := cs[k := c][k + 1 := d];
    Around2(cs, k);
    Around2(ds, k);
    FlattenAround(ds, k);
    assert ds[..k] == cs[..k] && ds[k + 2..] == cs[k + 2..];
  }

  lemma Around2(cs: seq<seq<Region>>, k: int)
    requires 0 <= k && k + 1 < |cs|
    ensures Flatten(cs) == Flatten(cs[..k]) + (cs[k] + cs[k + 1]) + Flatten(cs[k + 2..])
  {
    FlattenAround(cs, k);
    assert cs[k + 1..][1..] == cs[k + 2..];
    Regroup(Flatten(cs[..k]), cs[k], cs[k + 1], Flatten(cs[k + 2..]));
  }

  lemma Regroup(a: seq<Region>, b: seq<Region>, c: seq<Region>, d: seq<Region>)
    ensures a + b + (c + d) == a + (b + c) + d
  {
  }

  /** Cutting chunk `k` in two leaves the list alone. */
  lemma AddCut(cs: seq<seq<Region>>, k: int, c: seq<Region>, d: seq<Region>)
    requires 0 <= k < |cs| && c + d == cs[k]
    ensures Flatten(cs[..k] + [c, d] + cs[k + 1..]) == Flatten(cs)
    ensures Off(cs[..k] + [c, d] + cs[k + 1..], k) == Off(cs, k)
    ensures Off(cs[..k] + [c, d] + cs[k + 1..], k + 1) == Off(cs, k) + |c|
  {
    var ds := cs[..k] + [c, d] + cs[k + 1..];
    FlattenAround(cs, k);
    Around2(ds, k);
    FlattenAround(ds, k);
    assert ds[..k] == cs[..k] && ds[k + 2..] == cs[k + 1..] && ds[k] == c && ds[k + 1] == d;
  }

  /** Joining chunks `k` and `k + 1` leaves the list alone. */
  lemma JoinChunks(cs: seq<seq<Region>>, k: int)
    requires 0 <= k && k + 1 < |cs|
    ensures Flatten(cs[..k] + [cs[k] + cs[k + 1]] + cs[k + 2..]) == Flatten(cs)
  {
    var ds := cs[..k] + [cs[k] + cs[k + 1]] + cs[k + 2..];
    Around2(cs, k);
    FlattenAround(ds, k);
    assert ds[..k] == cs[..k] && ds[k + 1..] == cs[k + 2..];
  }

  /** The offset of a chunk depends on the chunks before it only. */
  lemma OffPrefix(cs: seq<seq<Region>>, ds: seq<seq<Region>>, k: int)
    requires 0 <= k <= |cs| && k <= |ds| && cs[..k] == ds[..k]
    ensures Off(cs, k) == Off(ds, k)
  {
  }

  /** The chunks after the last region of chunk `k` moved into the first of chunk `k + 1`. */
  function MergedAtCut(cs: seq<seq<Region>>, k: int): (ds: seq<seq<Region>>)
    requires 0 <= k && k + 1 < |cs| && cs[k] != [] && cs[k + 1] != []
  {
    var x, y := cs[k][|cs[k]| - 1], cs[k + 1][0];
    cs[k := cs[k][..|cs[k]| - 1]][k + 1 := [Region(x.start, y.end)] + cs[k + 1][1..]]
  }

  lemma MergeAtCut(cs: seq<seq<Region>>, k: int)
    requires 0 <= k && k + 1 < |cs| && cs[k] != [] && cs[k + 1] != []
    ensures var b := Off(cs, k + 1);
            var x, y := cs[k][|cs[k]| - 1], cs[k + 1][0];
            && 0 < b < |Flatten(cs)|
            && Flatten(cs)[b - 1] == x && Flatten(cs)[b] == y
            && Flatten(MergedAtCut(cs, k)) == Splice(Flatten(cs), b - 1, b + 1, [Region(x.start, y.end)])
  {
    FlattenAround(cs, k);
    FlattenAt(cs, k, |cs[k]| - 1);
    FlattenAt(cs, k + 1, 0);
    MergedList(cs, k, Flatten(cs), Off(cs, k));
  }

  lemma MergedList(cs: seq<seq<Region>>, k: int, rs: seq<Region>, a: nat)
    requires 0 <= k && k + 1 < |cs| && cs[k] != [] && cs[k + 1] != [] && rs == Flatten(cs) && a == Off(cs, k)
    ensures var n := |cs[k]|;
            && a + n < |rs|
            && Flatten(MergedAtCut(cs, k)) == Splice(rs, a + n - 1, a + n + 1, [Region(cs[k][n - 1].start, cs[k + 1][0].end)])
  {
    var ds, n := MergedAtCut(cs, k), |cs[k]|;
    Around2(cs, k);
    Around2(ds, k);
    assert ds[..k] == cs[..k] && ds[k + 2..] == cs[k + 2..];
    MergedAround(Flatten(cs[..k]), cs[k], cs[k + 1], Flatten(cs[k + 2..]), Region(cs[k][n - 1].start, cs[k + 1][0].end), rs, Flatten(ds));
  }

  lemma MergedAround(a: seq<Region>, c: seq<Region>, d: seq<Region>, b: seq<Region>, z: Region, rs: seq<Region>, out: seq<Region>)
    requires c != [] && d != [] && rs == a + (c + d) + b && out == a + (c[..|c| - 1] + ([z] + d[1..])) + b
    ensures |a| + |c| < |rs| && out == Splice(rs, |a| + |c| - 1, |a| + |c| + 1, [z])
  {
    MergedPair(c, d, z);
    SpliceMiddle(a, c + d, b, |c| - 1, |c| + 1, [z]);
  }

  lemma MergedPair(c: seq<Region>, d: seq<Region>, z: Region)
    requires c != [] && d != []
    ensures c[..|c| - 1] + ([z] + d[1..]) == (c + d)[..|c| - 1] + [z] + (c + d)[|c| + 1..]
  {
  }

  /** When the list touches at the cut only, merging there coalesces it. */
  lemma CoalesceAtCut(cs: seq<seq<Region>>, k: int)
    requires 0 <= k && k + 1 < |cs| && Full(cs)
    requires TouchesOnlyAt(Flatten(cs), Off(cs, k + 1))
    requires cs[k][|cs[k]| - 1].end == cs[k + 1][0].start
    ensures Coalesced(Flatten(MergedAtCut(cs, k)))
    ensures FreeAddrs(Flatten(MergedAtCut(cs, k))) == FreeAddrs(Flatten(cs))
    ensures FullExcept(MergedAtCut(cs, k), k)
  {
    MergeAtCut(cs, k);
    MergeTouching(Flatten(cs), Off(cs, k + 1));
  }

  /** When the list touches at the cut only and does not touch there, it is coalesced. */
  lemma CoalescedUnlessCut(cs: seq<seq<Region>>, k: int)
    requires 0 <= k < |cs| && TouchesOnlyAt(Flatten(cs), Off(cs, k + 1))
    requires k + 1 < |cs| ==> cs[k] != [] && cs[k + 1] != []
    requires k + 1 < |cs| ==> cs[k][|cs[k]| - 1].end != cs[k + 1][0].start
    ensures Coalesced(Flatten(cs))
  {
    if k + 1 < |cs| {
      MergeAtCut(cs, k);
    } else {
      assert cs[..k + 1] == cs;
    }
    NotTouching(Flatten(cs), Off(cs, k + 1));
  }
}
