/** The slab allocator: slabs of equal slots, a bit vector of free slots in each, a list of all
    slabs and a chain of those that have a free slot.
 */
module Slabs {
  import opened Basics
  import opened MachineWords
  import opened BitVectors
  import Q = IntrusiveQueues

  type Ptr = Q.Ptr

  const Null: Ptr := Q.Null

  /** The number of bits in the vector of a slab. */
  const SLOTS: nat := 512
  const WORDS: nat := 16

  datatype SlabInfo = SlabInfo(base: nat, next: Ptr, nextFree: Ptr, numFree: nat, free: Words)

  // ---- sizes ----

  function PagesPerSlab(size: nat): nat {
    if size >= 2048 then 4 else if size >= 1024 then 3 else if size >= 512 then 2 else 1
  }

  function SlabSize(size: nat): nat {
    PagesPerSlab(size) * PAGE_SIZE
  }

  function ObjectsPerSlab(size: nat): nat
    requires size > 0
  {
    SlabSize(size) / size
  }

  /** Objects of 8 bytes and more fit the bit vector; a slab holds at least four, in its bounds. */
  lemma SlabArithmetic(size: nat)
    requires 8 <= size < PAGE_SIZE
    ensures 4 <= ObjectsPerSlab(size) <= SLOTS
    ensures ObjectsPerSlab(size) * size <= SlabSize(size) < (ObjectsPerSlab(size) + 1) * size
    ensures PageAndObjects(size, SlabSize(size), ObjectsPerSlab(size))
  {
    var n := ObjectsPerSlab(size);
    QuotientBounds(SlabSize(size), size);
    if size < 512 {
      FewEnough(n, size, 8, SlabSize(size));
      ManyEnough(n, size, 511, SlabSize(size));
    } else if size < 1024 {
      FewEnough(n, size, 512, SlabSize(size));
      ManyEnough(n, size, 1023, SlabSize(size));
    } else if size < 2048 {
      FewEnough(n, size, 1024, SlabSize(size));
      ManyEnough(n, size, 2047, SlabSize(size));
    } else {
      FewEnough(n, size, 2048, SlabSize(size));
      ManyEnough(n, size, 4095, SlabSize(size));
    }
  }

  /** From 512 bytes on a slab grows with its objects, so as to hold at least four and no more than
      sixteen. */
  predicate PageAndObjects(size: nat, bytes: nat, n: nat) {
    if size < 512 then bytes == 0x1000 && n >= 8
    else if size < 1024 then bytes == 0x2000 && 8 <= n <= 16
    else if size < 2048 then bytes == 0x3000 && 6 <= n <= 12
    else bytes == 0x4000 && 4 <= n <= 8
  }

  lemma QuotientBounds(a: nat, b: nat)
    requires b > 0
    ensures (a / b) * b <= a < (a / b + 1) * b
  {
  }

  lemma FewEnough(n: nat, size: nat, least: nat, bytes: nat)
    requires least <= size && n * size <= bytes
    ensures n * least <= bytes
  {
  }

  lemma ManyEnough(n: nat, size: nat, most: nat, bytes: nat)
    requires size <= most && bytes < (n + 1) * size
    ensures bytes < (n + 1) * most
  {
  }

  // ---- the two lists ----

  ghost predicate NextAt(slabs: map<Ptr, SlabInfo>, all: seq<Ptr>, i: nat)
    requires i < |all|
  {
    all[i] in slabs && slabs[all[i]].next == Q.After(all, i)
  }

  ghost predicate AllLinked(slabs: map<Ptr, SlabInfo>, first: Ptr, all: seq<Ptr>) {
    && first == Q.First(all) && Null !in all && Distinct(all)
    && (forall p :: p in slabs ==> p in all)
    && (forall i :: 0 <= i < |all| ==> NextAt(slabs, all, i))
  }

  ghost predicate FreeAt(slabs: map<Ptr, SlabInfo>, chain: seq<Ptr>, i: nat)
    requires i < |chain|
  {
    chain[i] in slabs && slabs[chain[i]].nextFree == Q.After(chain, i)
  }

  ghost predicate FreeLinked(slabs: map<Ptr, SlabInfo>, firstFree: Ptr, chain: seq<Ptr>) {
    && firstFree == Q.First(chain) && Null !in chain && Distinct(chain)
    && (forall i :: 0 <= i < |chain| ==> FreeAt(slabs, chain, i))
    && (forall p :: p in slabs ==> (p in chain <==> slabs[p].numFree > 0))
  }

  /** One slab: `n` slots, the free ones counted exactly; the slot that holds the slab's own
      record is never free. */
  ghost predicate SlabOk(s: SlabInfo, n: nat, own: bool) {
    && |s.free| == WORDS && Clean(s.free, n)
    && s.numFree == |Members(s.free)|
    && (own ==> !In(s.free, 0))
  }

  ghost predicate Apart(slabs: map<Ptr, SlabInfo>, bytes: nat) {
    forall p, q :: p in slabs && q in slabs && p != q ==>
      slabs[p].base + bytes <= slabs[q].base || slabs[q].base + bytes <= slabs[p].base
  }

  // ---- changes to the lists ----

  /** Slabs with another record for `p` that keeps its base and its place in the list. */
  lemma AllLinkedFrame(slabs: map<Ptr, SlabInfo>, first: Ptr, all: seq<Ptr>, p: Ptr, s: SlabInfo)
    requires AllLinked(slabs, first, all) && p in slabs && s.next == slabs[p].next
    ensures AllLinked(slabs[p := s], first, all)
  {
    var slabs' := slabs[p := s];
    forall i | 0 <= i < |all|
      ensures NextAt(slabs', all, i)
    {
      assert NextAt(slabs, all, i);
    }
  }

  lemma ApartFrame(slabs: map<Ptr, SlabInfo>, bytes: nat, p: Ptr, s: SlabInfo)
    requires Apart(slabs, bytes) && p in slabs && s.base == slabs[p].base
    ensures Apart(slabs[p := s], bytes)
  {
  }

  /** A slab that keeps some free slots, or none, keeps its place in the chain. */
  lemma FreeLinkedFrame(slabs: map<Ptr, SlabInfo>, firstFree: Ptr, chain: seq<Ptr>, p: Ptr, s: SlabInfo)
    requires FreeLinked(slabs, firstFree, chain) && p in slabs
    requires s.nextFree == slabs[p].nextFree && (s.numFree > 0 <==> slabs[p].numFree > 0)
    ensures FreeLinked(slabs[p := s], firstFree, chain)
  {
    var slabs' := slabs[p := s];
    forall i | 0 <= i < |chain|
      ensures FreeAt(slabs', chain, i)
    {
      assert FreeAt(slabs, chain, i);
    }
  }

  /** The first slab of the chain leaves it when its last slot is taken. */
  lemma FreeLinkedPop(slabs: map<Ptr, SlabInfo>, firstFree: Ptr, chain: seq<Ptr>, s: SlabInfo)
    requires FreeLinked(slabs, firstFree, chain) && chain != [] && s.numFree == 0
    ensures firstFree in slabs && FreeLinked(slabs[firstFree := s], slabs[firstFree].nextFree, chain[1..])
  {
    var p, rest := chain[0], chain[1..];
    var slabs' := slabs[p := s];
    assert FreeAt(slabs, chain, 0);
    assert p in chain;
    assert forall q :: q in chain <==> q == p || q in rest;
    assert p !in rest;
    forall i | 0 <= i < |rest|
      ensures FreeAt(slabs', rest, i)
    {
      assert FreeAt(slabs, chain, i + 1);
    }
  }

  /** A slab that was full, or is new, comes to the front of the chain. */
  lemma FreeLinkedPush(slabs: map<Ptr, SlabInfo>, firstFree: Ptr, chain: seq<Ptr>, p: Ptr, s: SlabInfo)
    requires FreeLinked(slabs, firstFree, chain) && p != Null && p !in chain
    requires s.numFree > 0 && s.nextFree == firstFree
    ensures FreeLinked(slabs[p := s], p, [p] + chain)
  {
    var slabs' := slabs[p := s];
    var chain' := [p] + chain;
    forall i | 0 <= i < |chain'|
      ensures FreeAt(slabs', chain', i)
    {
      if i > 0 {
        assert FreeAt(slabs, chain, i - 1);
      }
    }
  }

  lemma AllLinkedPush(slabs: map<Ptr, SlabInfo>, first: Ptr, all: seq<Ptr>, p: Ptr, s: SlabInfo)
    requires AllLinked(slabs, first, all) && p != Null && p !in slabs && s.next == first
    ensures AllLinked(slabs[p := s], p, [p] + all)
  {
    var slabs' := slabs[p := s];
    var all' := [p] + all;
    forall q | q in all
      ensures q != p && q in all'
    {
      var i := Q.IndexOf(all, q);
      assert NextAt(slabs, all, i);
    }
    forall i, j | 0 <= i < j < |all'|
      ensures all'[i] != all'[j]
    {
      assert all'[j] == all[j - 1] && all[j - 1] in all;
    }
    forall i | 0 <= i < |all'|
      ensures NextAt(slabs', all', i)
    {
      if i > 0 {
        assert NextAt(slabs, all, i - 1);
      }
    }
  }

  // ---- the invariant ----

  ghost predicate Rep(size: nat, own: bool, slabs: map<Ptr, SlabInfo>, first: Ptr, firstFree: Ptr, all: seq<Ptr>, chain: seq<Ptr>)
  {
    && 8 <= size < PAGE_SIZE
    && AllLinked(slabs, first, all)
    && FreeLinked(slabs, firstFree, chain)
    && Apart(slabs, SlabSize(size))
    && (forall p :: p in slabs ==> SlabOk(slabs[p], ObjectsPerSlab(size), own))
  }

  /** A slot: object or reserved, free or in use. */
  datatype Obj = Obj(slab: Ptr, idx: nat)

  function Addr(slabs: map<Ptr, SlabInfo>, size: nat, o: Obj): nat
    requires o.slab in slabs
  {
    slabs[o.slab].base + o.idx * size
  }

  /** The slot is an object that is in use. */
  ghost predicate IsLive(slabs: map<Ptr, SlabInfo>, n: nat, own: bool, o: Obj) {
    && o.slab in slabs && o.idx < n
    && !In(slabs[o.slab].free, o.idx)
    && !(own && o.idx == 0)
  }

  ghost function Live(slabs: map<Ptr, SlabInfo>, n: nat, own: bool): iset<Obj> {
    iset o: Obj | IsLive(slabs, n, own, o)
  }

  lemma Products(i: nat, j: nat, size: nat)
    requires i < j
    ensures i * size + size <= j * size
  {
    assert (i + 1) * size <= j * size;
  }

  /** Live objects lie inside their slab and never overlap; `n` objects fit into its `bytes`. */
  lemma LiveApart(size: nat, own: bool, slabs: map<Ptr, SlabInfo>, n: nat, bytes: nat, o: Obj, u: Obj)
    requires n * size <= bytes && Apart(slabs, bytes)
    requires IsLive(slabs, n, own, o) && IsLive(slabs, n, own, u) && o != u
    ensures Addr(slabs, size, o) + size <= Addr(slabs, size, u) || Addr(slabs, size, u) + size <= Addr(slabs, size, o)
    ensures Addr(slabs, size, o) + size <= slabs[o.slab].base + bytes
  {
    Products(o.idx, n, size);
    Products(u.idx, n, size);
    SlotsApart(slabs[o.slab].base, slabs[u.slab].base, o.idx, u.idx, size, bytes);
  }

  lemma SlotsApart(a: nat, b: nat, i: nat, j: nat, size: nat, bytes: nat)
    requires i * size + size <= bytes && j * size + size <= bytes
    requires a + bytes <= b || b + bytes <= a || (a == b && i != j)
    ensures a + i * size + size <= b + j * size || b + j * size + size <= a + i * size
  {
    if i < j {
      Products(i, j, size);
    } else if j < i {
      Products(j, i, size);
    }
  }

  ghost predicate Sealed(size: nat, own: bool, slabs: map<Ptr, SlabInfo>, first: Ptr, firstFree: Ptr, all: seq<Ptr>, chain: seq<Ptr>) {
    forall k: nat {:trigger Peek(k)} :: Peek(k) ==> Rep(size, own, slabs, first, firstFree, all, chain)
  }

  // ---- taking and giving back a slot ----

  /** The record of a slab from which slot `i` is taken; a slab that is now full leaves the chain. */
  function TakenFrom(s: SlabInfo, i: nat): SlabInfo
    requires s.numFree > 0 && i < Room(s.free)
  {
    var t := s.(free := Set(s.free, i, false), numFree := s.numFree - 1);
    if t.numFree == 0 then t.(nextFree := Null) else t
  }

  lemma TakeKeeps(size: nat, own: bool, slabs: map<Ptr, SlabInfo>, first: Ptr, firstFree: Ptr, all: seq<Ptr>, chain: seq<Ptr>, i: nat)
    requires Rep(size, own, slabs, first, firstFree, all, chain) && chain != []
    requires firstFree in slabs && In(slabs[firstFree].free, i)
    ensures slabs[firstFree].numFree > 0
    ensures var s := slabs[firstFree]; var t := TakenFrom(s, i);
            Rep(size, own, slabs[firstFree := t], first, if t.numFree == 0 then s.nextFree else firstFree, all,
                if t.numFree == 0 then chain[1..] else chain)
  {
    var s := slabs[firstFree];
    var n := ObjectsPerSlab(size);
    assert chain[0] in chain;
    assert SlabOk(s, n, own);
    var t := TakenFrom(s, i);
    TakeSlot(s, n, own, i);
    AllLinkedFrame(slabs, first, all, firstFree, t);
    ApartFrame(slabs, SlabSize(size), firstFree, t);
    if t.numFree == 0 {
      FreeLinkedPop(slabs, firstFree, chain, t);
    } else {
      FreeLinkedFrame(slabs, firstFree, chain, firstFree, t);
    }
  }

  lemma TakeSlot(s: SlabInfo, n: nat, own: bool, i: nat)
    requires SlabOk(s, n, own) && In(s.free, i) && s.numFree > 0
    ensures SlabOk(TakenFrom(s, i), n, own)
    ensures forall j: nat :: In(TakenFrom(s, i).free, j) <==> j != i && In(s.free, j)
  {
    SetMembers(s.free, i, false);
    MembersBelowIs(s.free, Room(s.free), i);
    forall j: nat
      ensures In(TakenFrom(s, i).free, j) <==> j != i && In(s.free, j)
    {
      SetIn(s.free, i, false, j);
    }
  }

  /** The record of a slab to which slot `i` is given back; a slab that was full joins the chain. */
  function GivenTo(s: SlabInfo, i: nat, firstFree: Ptr): SlabInfo
    requires i < Room(s.free)
  {
    var t := s.(free := Set(s.free, i, true), numFree := s.numFree + 1);
    if t.numFree == 1 then t.(nextFree := firstFree) else t
  }

  lemma GiveKeeps(size: nat, own: bool, slabs: map<Ptr, SlabInfo>, first: Ptr, firstFree: Ptr, all: seq<Ptr>, chain: seq<Ptr>, p: Ptr, i: nat)
    requires Rep(size, own, slabs, first, firstFree, all, chain)
    requires p in slabs && p != Null && i < ObjectsPerSlab(size) && i < Room(slabs[p].free) && !In(slabs[p].free, i) && !(own && i == 0)
    ensures var t := GivenTo(slabs[p], i, firstFree);
            Rep(size, own, slabs[p := t], first, if t.numFree == 1 then p else firstFree, all, if t.numFree == 1 then [p] + chain else chain)
  {
    var s := slabs[p];
    var t := GivenTo(s, i, firstFree);
    assert SlabOk(s, ObjectsPerSlab(size), own);
    GiveSlot(s, ObjectsPerSlab(size), own, i, firstFree);
    AllLinkedFrame(slabs, first, all, p, t);
    ApartFrame(slabs, SlabSize(size), p, t);
    if t.numFree == 1 {
      FreeLinkedPush(slabs, firstFree, chain, p, t);
    } else {
      FreeLinkedFrame(slabs, firstFree, chain, p, t);
    }
  }

  lemma GiveSlot(s: SlabInfo, n: nat, own: bool, i: nat, firstFree: Ptr)
    requires SlabOk(s, n, own) && i < n && i < Room(s.free) && !In(s.free, i) && !(own && i == 0)
    ensures SlabOk(GivenTo(s, i, firstFree), n, own)
    ensures forall j: nat :: In(GivenTo(s, i, firstFree).free, j) <==> j == i || In(s.free, j)
  {
    SetMembers(s.free, i, true);
    MembersBelowIs(s.free, Room(s.free), i);
    forall j: nat
      ensures In(GivenTo(s, i, firstFree).free, j) <==> j == i || In(s.free, j)
    {
      SetIn(s.free, i, true, j);
    }
  }

  // ---- a new slab ----

  lemma {:induction false} FullBelow(words: Words, n: nat, m: nat)
    requires forall j: nat :: In(words, j) <==> j < n
    ensures CountBelow(words, m) == if m < n then m else n
  {
    if m > 0 {
      FullBelow(words, n, m - 1);
      CountStep(words, m - 1);
    }
  }

  lemma NothingSet(words: Words)
    requires forall k :: 0 <= k < |words| ==> words[k] == {}
    ensures forall j: nat :: !In(words, j)
  {
  }

  /** The record of a slab whose first `n` slots are free. */
  method NewInfo(base: nat, n: nat) returns (s: SlabInfo)
    requires 4 <= n <= SLOTS
    ensures SlabOk(s, n, false) && s.base == base && s.numFree == n
    ensures forall j: nat :: In(s.free, j) <==> j < n
  {
    var empty: Words := seq(WORDS, i => {});
    NothingSet(empty);
    var ok, free := SetRange(empty, SLOTS, Unbounded, Excluded(n), true);
    FullBelow(free, n, Room(free));
    CountIsSize(free, Room(free));
    s := SlabInfo(base, Null, Null, n, free);
  }

  /** And with its first slot reserved for the record itself when `own` is set. */
  method NewSlab(base: nat, n: nat, own: bool) returns (s: SlabInfo)
    requires 4 <= n <= SLOTS
    ensures SlabOk(s, n, own) && s.base == base && s.numFree > 0
    ensures forall j: nat :: In(s.free, j) <==> j < n && !(own && j == 0)
  {
    s := NewInfo(base, n);
    if own {
      TakeSlot(s, n, false, 0);
      s := TakenFrom(s, 0);
    }
  }

  lemma AddSlabKeeps(size: nat, own: bool, slabs: map<Ptr, SlabInfo>, first: Ptr, firstFree: Ptr, all: seq<Ptr>, chain: seq<Ptr>, p: Ptr, s: SlabInfo)
    requires Rep(size, own, slabs, first, firstFree, all, chain)
    requires p != Null && p !in slabs && SlabOk(s, ObjectsPerSlab(size), own) && s.numFree > 0
    requires s.next == first && s.nextFree == firstFree
    requires forall q :: q in slabs ==> slabs[q].base + SlabSize(size) <= s.base || s.base + SlabSize(size) <= slabs[q].base
    ensures Rep(size, own, slabs[p := s], p, p, [p] + all, [p] + chain)
  {
    AllLinkedPush(slabs, first, all, p, s);
    ChainInSlabs(slabs, firstFree, chain, p);
    FreeLinkedPush(slabs, firstFree, chain, p, s);
  }

  lemma ChainInSlabs(slabs: map<Ptr, SlabInfo>, firstFree: Ptr, chain: seq<Ptr>, p: Ptr)
    requires FreeLinked(slabs, firstFree, chain)
    ensures p in chain ==> p in slabs
  {
    if p in chain {
      var i := Q.IndexOf(chain, p);
      assert FreeAt(slabs, chain, i);
    }
  }

  // ---- the allocator ----

  /** Slot `i` of slab `p` was marked free; a slab that was full is now the first with a free slot. */
  ghost predicate Given(slabs: map<Ptr, SlabInfo>, firstFree: Ptr, p: Ptr, i: nat, slabs': map<Ptr, SlabInfo>, firstFree': Ptr) {
    && p in slabs && i < Room(slabs[p].free)
    && slabs' == slabs[p := GivenTo(slabs[p], i, firstFree)]
    && firstFree' == if slabs[p].numFree == 0 then p else firstFree
  }

  datatype FreeResult = Freed | DoubleFree | Misaligned | WrongAllocator

  ghost predicate InSlab(s: SlabInfo, bytes: nat, ptr: nat) {
    s.base <= ptr < s.base + bytes
  }

  /** The used slots of the listed slabs. */
  ghost function UsedSlots(slabs: map<Ptr, SlabInfo>, all: seq<Ptr>, n: nat): int {
    if all == [] then 0
    else UsedSlots(slabs, all[..|all| - 1], n)
         + if all[|all| - 1] in slabs then n - |Members(slabs[all[|all| - 1]].free)| else 0
  }

  // ---- counting live objects ----

  ghost function Numbers(n: nat): (s: set<nat>)
    ensures |s| == n && forall i: nat :: i in s <==> i < n
  {
    if n == 0 then {} else Numbers(n - 1) + {n - 1}
  }

  /** The slots of one slab whose objects are live. */
  ghost function LiveSlots(s: SlabInfo, n: nat, own: bool): set<nat> {
    Numbers(n) - Members(s.free) - if own then {0} else {}
  }

  lemma LiveSlotsCount(s: SlabInfo, n: nat, own: bool)
    requires SlabOk(s, n, own) && n > 0
    ensures |LiveSlots(s, n, own)| + (if own then 1 else 0) == n - |Members(s.free)|
    ensures forall i: nat :: i in LiveSlots(s, n, own) <==> i < n && !In(s.free, i) && !(own && i == 0)
  {
    MembersIs(s.free);
    assert Members(s.free) <= Numbers(n);
    assert |Numbers(n) - Members(s.free)| == n - |Members(s.free)|;
    if own {
      assert 0 in Numbers(n) - Members(s.free);
    }
  }

  ghost function ObjectsAt(p: Ptr, slots: set<nat>): set<Obj> {
    set i | i in slots :: Obj(p, i)
  }

  lemma {:induction false} ObjectsAtCount(p: Ptr, slots: set<nat>)
    ensures |ObjectsAt(p, slots)| == |slots|
  {
    if slots != {} {
      var i :| i in slots;
      ObjectsAtCount(p, slots - {i});
      assert ObjectsAt(p, slots) == ObjectsAt(p, slots - {i}) + {Obj(p, i)};
    }
  }

  /** The live objects of the listed slabs. */
  ghost function LiveOf(slabs: map<Ptr, SlabInfo>, all: seq<Ptr>, n: nat, own: bool): set<Obj> {
    if all == [] then {}
    else
      var p := all[|all| - 1];
      LiveOf(slabs, all[..|all| - 1], n, own) + if p in slabs then ObjectsAt(p, LiveSlots(slabs[p], n, own)) else {}
  }

  lemma {:induction false} LiveOfIs(slabs: map<Ptr, SlabInfo>, all: seq<Ptr>, n: nat, own: bool, o: Obj)
    requires n > 0 && forall p :: p in slabs ==> SlabOk(slabs[p], n, own)
    ensures o in LiveOf(slabs, all, n, own) <==> o.slab in all && IsLive(slabs, n, own, o)
  {
    if all != [] {
      var p, rest := all[|all| - 1], all[..|all| - 1];
      LiveOfIs(slabs, rest, n, own, o);
      InLonger(all, o.slab);
      if p in slabs {
        LiveAtIs(slabs, p, n, own, o);
      }
    }
  }

  lemma InLonger(all: seq<Ptr>, p: Ptr)
    requires all != []
    ensures p in all <==> p in all[..|all| - 1] || p == all[|all| - 1]
  {
    assert all == all[..|all| - 1] + [all[|all| - 1]];
  }

  lemma LiveAtIs(slabs: map<Ptr, SlabInfo>, p: Ptr, n: nat, own: bool, o: Obj)
    requires p in slabs && n > 0 && SlabOk(slabs[p], n, own)
    ensures o in ObjectsAt(p, LiveSlots(slabs[p], n, own)) <==> o.slab == p && IsLive(slabs, n, own, o)
  {
    LiveSlotsCount(slabs[p], n, own);
  }

  /** Used slots are live objects, and a slot for each record that slabs keep in themselves. */
  lemma {:induction false} UsedAreLive(slabs: map<Ptr, SlabInfo>, all: seq<Ptr>, n: nat, own: bool)
    requires n > 0 && Distinct(all) && (forall p :: p in all ==> p in slabs) && forall p :: p in slabs ==> SlabOk(slabs[p], n, own)
    ensures UsedSlots(slabs, all, n) == |LiveOf(slabs, all, n, own)| + if own then |all| else 0
  {
    if all != [] {
      var p, rest := all[|all| - 1], all[..|all| - 1];
      UsedAreLive(slabs, rest, n, own);
      LiveSlotsCount(slabs[p], n, own);
      ObjectsAtCount(p, LiveSlots(slabs[p], n, own));
      forall o | o in LiveOf(slabs, rest, n, own)
        ensures o !in ObjectsAt(p, LiveSlots(slabs[p], n, own))
      {
        LiveOfIs(slabs, rest, n, own, o);
      }
      assert LiveOf(slabs, rest, n, own) !! ObjectsAt(p, LiveSlots(slabs[p], n, own));
    }
  }

  class SlabAllocator {
    const size: nat
    const ownInfo: bool
    var slabs: map<Ptr, SlabInfo>
    var first: Ptr
    var firstFree: Ptr
    ghost var all: seq<Ptr>
    ghost var chain: seq<Ptr>

    ghost predicate Valid()
      reads this
    {
      8 <= size < PAGE_SIZE && Sealed(size, ownInfo, slabs, first, firstFree, all, chain)
    }

    ghost function LiveSet(): iset<Obj>
      requires size > 0
      reads this
    {
      Live(slabs, ObjectsPerSlab(size), ownInfo)
    }

    constructor (objectSize: nat, own: bool)
      requires 8 <= objectSize < PAGE_SIZE
      ensures Valid() && size == objectSize && ownInfo == own && LiveSet() == iset{} && slabs == map[] && firstFree == Null
    {
      size, ownInfo := objectSize, own;
      slabs, first, firstFree := map[], Null, Null;
      all, chain := [], [];
    }

    /** Adds a slab of pages that no slab uses. */
    method AddSlab(base: nat, p: Ptr)
      requires Valid() && firstFree == Null && p != Null && p !in slabs
      requires forall q :: q in slabs ==> slabs[q].base + SlabSize(size) <= base || base + SlabSize(size) <= slabs[q].base
      modifies this
      ensures Valid() && firstFree == p && LiveSet() == old(LiveSet())
      ensures p in slabs && slabs == old(slabs)[p := slabs[p]] && slabs[p].base == base
      ensures forall i: nat :: In(slabs[p].free, i) <==> IsObject(i)
    {
      assert Peek(0);
      SlabArithmetic(size);
      var s := NewSlab(base, ObjectsPerSlab(size), ownInfo);
      s := s.(next := first, nextFree := firstFree);
      AddSlabKeeps(size, ownInfo, slabs, first, firstFree, all, chain, p, s);
      NewSlabLive(slabs, ObjectsPerSlab(size), ownInfo, p, s);
      slabs, first, firstFree := slabs[p := s], p, p;
      all, chain := [p] + all, [p] + chain;
    }

    /** The first slab of the chain has a free slot. */
    lemma FirstHasFree()
      requires Valid() && firstFree != Null
      ensures firstFree in slabs && slabs[firstFree].numFree > 0 && chain != [] && HasFree(slabs[firstFree].free)
    {
      assert Peek(0);
      assert FreeAt(slabs, chain, 0) && chain[0] in chain;
      SlabArithmetic(size);
      assert SlabOk(slabs[firstFree], ObjectsPerSlab(size), ownInfo);
      SomeFree(slabs[firstFree], ObjectsPerSlab(size), ownInfo);
    }

    lemma TakeDone(i: nat)
      requires Valid() && firstFree in slabs && In(slabs[firstFree].free, i) && slabs[firstFree].numFree > 0
      ensures chain != []
      ensures var s := slabs[firstFree]; var t := TakenFrom(s, i);
              && Sealed(size, ownInfo, slabs[firstFree := t], first, if t.numFree == 0 then s.nextFree else firstFree, all,
                        if t.numFree == 0 then chain[1..] else chain)
              && Obj(firstFree, i) !in LiveSet()
              && Live(slabs[firstFree := t], ObjectsPerSlab(size), ownInfo) == LiveSet() + iset{Obj(firstFree, i)}
    {
      assert Peek(0);
      assert firstFree in chain;
      var s := slabs[firstFree];
      assert SlabOk(s, ObjectsPerSlab(size), ownInfo);
      TakeKeeps(size, ownInfo, slabs, first, firstFree, all, chain, i);
      TakeSlot(s, ObjectsPerSlab(size), ownInfo, i);
      TakeLive(slabs, ObjectsPerSlab(size), ownInfo, firstFree, TakenFrom(s, i), i);
    }

    /** Takes the lowest free slot of the first slab of the chain. While the invariant holds that is
        an object that was not live. */
    method TakeFirst() returns (addr: nat, ghost o: Obj)
      requires firstFree in slabs && slabs[firstFree].numFree > 0 && HasFree(slabs[firstFree].free)
      modifies this
      ensures o.slab == old(firstFree) && addr == Addr(old(slabs), size, o)
      ensures In(old(slabs)[o.slab].free, o.idx) && forall i: nat :: i < o.idx ==> !In(old(slabs)[o.slab].free, i)
      ensures slabs == old(slabs)[o.slab := TakenFrom(old(slabs)[o.slab], o.idx)]
      ensures old(Valid()) ==> Valid() && o !in old(LiveSet()) && LiveSet() == old(LiveSet()) + iset{o}
    {
      var p := firstFree;
      var s := slabs[p];
      var i := FindFree(s.free);
      if Valid() {
        TakeDone(i);
      }
      var t := s.(free := Set(s.free, i, false), numFree := s.numFree - 1);
      if t.numFree == 0 {
        firstFree := t.nextFree;
        t := t.(nextFree := Null);
        chain := if chain == [] then [] else chain[1..];
      }
      assert t == TakenFrom(s, i);
      slabs := slabs[p := t];
      addr, o := s.base + i * size, Obj(p, i);
    }

    /** Hands out an object that was not in use. `page` and `info` are what the page allocator and
        the allocator of records have to offer, should a new slab be needed; `back` are pages that
        are given back because no record can be had for them. */
    method Alloc(page: Option<nat>, info: Option<Ptr>) returns (r: Option<nat>, back: Option<nat>, ghost o: Obj)
      requires Valid()
      requires page.Some? ==> forall q :: q in slabs ==> slabs[q].base + SlabSize(size) <= page.value || page.value + SlabSize(size) <= slabs[q].base
      requires page.Some? && ownInfo ==> page.value != Null && page.value !in slabs
      requires info.Some? && !ownInfo ==> info.value != Null && info.value !in slabs
      modifies this
      ensures Valid()
      ensures r.None? <==> old(firstFree) == Null && (page.None? || (!ownInfo && info.None?))
      ensures r.None? ==> slabs == old(slabs)
      ensures back == if old(firstFree) == Null && !ownInfo && info.None? then page else None
      ensures r.Some? ==> o !in old(LiveSet()) && LiveSet() == old(LiveSet()) + iset{o}
      ensures r.Some? ==> o.slab in slabs && r.value == Addr(slabs, size, o)
    {
      o, back := Obj(Null, 0), None;
      if firstFree == Null {
        if page.None? {
          return None, None, o;
        }
        if !ownInfo && info.None? {
          return None, page, o;
        }
        AddSlab(page.value, if ownInfo then page.value else info.value);
      }
      FirstHasFree();
      var addr;
      addr, o := TakeFirst();
      r := Some(addr);
    }

    lemma ListAt(i: nat)
      requires Valid() && i < |all|
      ensures all[i] in slabs && all[i] != Null && slabs[all[i]].next == (if i + 1 < |all| then all[i + 1] else Null)
      ensures i + 1 < |all| ==> all[i + 1] != Null
      ensures slabs[all[i]].numFree == |Members(slabs[all[i]].free)|
    {
      assert Peek(0);
      assert NextAt(slabs, all, i) && all[i] in all;
      assert i + 1 < |all| ==> all[i + 1] in all;
      assert SlabOk(slabs[all[i]], ObjectsPerSlab(size), ownInfo);
    }

    lemma ListEnds()
      requires Valid()
      ensures first == (if all == [] then Null else all[0])
      ensures all != [] ==> all[0] != Null
      ensures forall p :: p in slabs ==> p in all
    {
      assert Peek(0);
      assert all != [] ==> all[0] in all;
    }

    /** The slab whose pages hold an address. */
    method FindSlab(ptr: nat) returns (p: Ptr)
      requires Valid()
      ensures p == Null ==> forall q :: q in slabs ==> !InSlab(slabs[q], SlabSize(size), ptr)
      ensures p != Null ==> p in slabs && InSlab(slabs[p], SlabSize(size), ptr)
    {
      ListEnds();
      ghost var i := 0;
      p := first;
      while p != Null
        invariant 0 <= i <= |all| && (if i < |all| then p == all[i] && p != Null else p == Null)
        invariant forall j :: 0 <= j < i ==> all[j] in slabs && !InSlab(slabs[all[j]], SlabSize(size), ptr)
        decreases |all| - i
      {
        ListAt(i);
        if slabs[p].base <= ptr < slabs[p].base + SlabSize(size) {
          return;
        }
        p := slabs[p].next;
        i := i + 1;
      }
    }

    /** Takes an object back. A live object is always taken back; an address that is not a slot,
        a slot that is already free and an address in no slab are told apart. A slot that is no
        object is not: it counts as free from then on, and the invariant is lost; see `Reserved`. */
    method Free(ptr: nat) returns (r: FreeResult, ghost o: Obj)
      requires Valid()
      modifies this
      ensures Valid() <==> !Reserved(old(slabs), size, ownInfo, ptr)
      ensures r.WrongAllocator? <==> forall p :: p in old(slabs) ==> !InSlab(old(slabs)[p], SlabSize(size), ptr)
      ensures !r.WrongAllocator? ==> o.slab in old(slabs) && InSlab(old(slabs)[o.slab], SlabSize(size), ptr)
      ensures r.Misaligned? ==> forall i: nat :: ptr != Addr(old(slabs), size, Obj(o.slab, i))
      ensures r.Freed? || r.DoubleFree? ==> ptr == Addr(old(slabs), size, o)
      ensures r.DoubleFree? ==> In(old(slabs)[o.slab].free, o.idx)
      ensures r.Freed? && Valid() ==> o in old(LiveSet()) && LiveSet() == old(LiveSet()) - iset{o}
      ensures !Valid() ==> r.Freed? && o.slab in slabs && In(slabs[o.slab].free, o.idx)
      ensures r.Freed? ==> Given(old(slabs), old(firstFree), o.slab, o.idx, slabs, firstFree)
      ensures !r.Freed? ==> slabs == old(slabs)
    {
      o := Obj(Null, 0);
      var p := FindSlab(ptr);
      if p == Null {
        return WrongAllocator, o;
      }
      var off := ptr - slabs[p].base;
      var idx := off / size;
      o := Obj(p, idx);
      SlotOf(off, size);
      if off != idx * size {
        MisalignedNotReserved(p, ptr);
        return Misaligned, o;
      }
      InBounds(ptr, p, idx);
      ReservedIs(ptr, p, idx);
      var ok := GiveBack(p, idx);
      r := if ok then Freed else DoubleFree;
    }

    /** Marks a slot free, unless it is free already. */
    method GiveBack(p: Ptr, idx: nat) returns (ok: bool)
      requires Valid() && p in slabs && p != Null && idx < Room(slabs[p].free)
      modifies this
      ensures Valid() <==> IsObject(idx)
      ensures ok == !In(old(slabs)[p].free, idx)
      ensures ok && Valid() ==> Obj(p, idx) in old(LiveSet()) && LiveSet() == old(LiveSet()) - iset{Obj(p, idx)}
      ensures !Valid() ==> ok && p in slabs && In(slabs[p].free, idx)
      ensures ok ==> Given(old(slabs), old(firstFree), p, idx, slabs, firstFree)
      ensures !ok ==> slabs == old(slabs)
    {
      ObjectsOnly(p, idx);
      var s := slabs[p];
      if Get(s.free, idx) {
        return false;
      }
      if IsObject(idx) {
        GiveDone(p, idx);
      } else {
        SetIn(s.free, idx, true, idx);
      }
      var t := s.(free := Set(s.free, idx, true), numFree := s.numFree + 1);
      if t.numFree == 1 {
        t := t.(nextFree := firstFree);
        firstFree := p;
        chain := [p] + chain;
      }
      assert t == GivenTo(s, idx, old(firstFree));
      slabs := slabs[p := t];
      ok := true;
      WouldBreak(p, idx);
    }

    /** Whether a slot is for an object. */
    ghost predicate IsObject(idx: nat)
      requires size > 0
    {
      idx < ObjectsPerSlab(size) && !(ownInfo && idx == 0)
    }

    /** Only slots for objects are ever free. */
    lemma ObjectsOnly(p: Ptr, idx: nat)
      requires Valid() && p in slabs
      ensures In(slabs[p].free, idx) ==> IsObject(idx)
    {
      assert Peek(0);
      assert SlabOk(slabs[p], ObjectsPerSlab(size), ownInfo);
    }

    lemma WouldBreak(p: Ptr, idx: nat)
      requires p in slabs && 8 <= size < PAGE_SIZE
      ensures Valid() && In(slabs[p].free, idx) ==> IsObject(idx)
    {
      if Valid() {
        ObjectsOnly(p, idx);
      }
    }

    /** Freeing the address of a live object frees that object. */
    method FreeLive(u: Obj) returns (r: FreeResult)
      requires Valid() && u in LiveSet()
      modifies this
      ensures Valid() && r.Freed? && LiveSet() == old(LiveSet()) - iset{u}
    {
      ghost var o;
      LiveNotReserved(u);
      r, o := Free(Addr(slabs, size, u));
    }

    /** A live object is where its address says, whichever slot that is looked for in. */
    lemma LiveNotReserved(u: Obj)
      requires Valid() && u in LiveSet()
      ensures var ptr := Addr(slabs, size, u);
              && !Reserved(slabs, size, ownInfo, ptr)
              && InSlab(slabs[u.slab], SlabSize(size), ptr)
                && (forall p :: p in slabs && InSlab(slabs[p], SlabSize(size), ptr) ==> p == u.slab)
              && (forall i: nat :: ptr == Addr(slabs, size, Obj(u.slab, i)) ==> i == u.idx)
    {
      ApartNow();
      SlabArithmetic(size);
      SlotIsUnique(size, ownInfo, slabs, ObjectsPerSlab(size), SlabSize(size), u);
    }

    lemma ApartNow()
      requires Valid()
      ensures Apart(slabs, SlabSize(size)) && Null !in slabs
    {
      assert Peek(0);
    }

    /** Every slot that starts in a slab has its bit. */
    lemma InBounds(ptr: nat, p: Ptr, idx: nat)
      requires Valid() && p in slabs && InSlab(slabs[p], SlabSize(size), ptr) && ptr == Addr(slabs, size, Obj(p, idx))
      ensures p != Null && idx < Room(slabs[p].free)
    {
      ApartNow();
      assert Peek(0);
      assert SlabOk(slabs[p], ObjectsPerSlab(size), ownInfo);
      SlotHasBit(size, idx);
    }

    lemma ReservedIs(ptr: nat, p: Ptr, idx: nat)
      requires Valid() && p in slabs && InSlab(slabs[p], SlabSize(size), ptr) && ptr == Addr(slabs, size, Obj(p, idx))
      ensures Reserved(slabs, size, ownInfo, ptr) <==> !IsObject(idx)
    {
      ApartNow();
      forall o: Obj | o.slab in slabs && InSlab(slabs[o.slab], SlabSize(size), ptr) && ptr == Addr(slabs, size, o)
        ensures o == Obj(p, idx)
      {
        SameSlot(o.idx, idx, size);
      }
      assert Obj(p, idx).slab == p;
    }

    lemma MisalignedNotReserved(p: Ptr, ptr: nat)
      requires Valid() && p in slabs && InSlab(slabs[p], SlabSize(size), ptr)
      requires forall i: nat :: ptr != Addr(slabs, size, Obj(p, i))
      ensures !Reserved(slabs, size, ownInfo, ptr)
    {
      ApartNow();
      forall o: Obj | o.slab in slabs && InSlab(slabs[o.slab], SlabSize(size), ptr)
        ensures ptr != Addr(slabs, size, o)
      {
        assert ptr != Addr(slabs, size, Obj(p, o.idx));
      }
    }

    lemma GiveDone(p: Ptr, i: nat)
      requires Valid() && p in slabs && p != Null && i < ObjectsPerSlab(size) && !(ownInfo && i == 0)
      requires i < Room(slabs[p].free) && !In(slabs[p].free, i)
      ensures var t := GivenTo(slabs[p], i, firstFree);
              && Sealed(size, ownInfo, slabs[p := t], first, if t.numFree == 1 then p else firstFree, all,
                        if t.numFree == 1 then [p] + chain else chain)
              && Obj(p, i) in LiveSet()
              && Live(slabs[p := t], ObjectsPerSlab(size), ownInfo) == LiveSet() - iset{Obj(p, i)}
    {
      assert Peek(0);
      assert SlabOk(slabs[p], ObjectsPerSlab(size), ownInfo);
      GiveKeeps(size, ownInfo, slabs, first, firstFree, all, chain, p, i);
      GiveSlot(slabs[p], ObjectsPerSlab(size), ownInfo, i, firstFree);
      GiveLive(slabs, ObjectsPerSlab(size), ownInfo, p, GivenTo(slabs[p], i, firstFree), i);
    }

    /** The live objects, as a finite set. */
    ghost function LiveObjects(): set<Obj>
      requires size > 0
      reads this
    {
      LiveOf(slabs, all, ObjectsPerSlab(size), ownInfo)
    }

    lemma LiveObjectsAre()
      requires Valid()
      ensures forall o :: o in LiveObjects() <==> o in LiveSet()
      ensures UsedSlots(slabs, all, ObjectsPerSlab(size)) == |LiveObjects()| + if ownInfo then |all| else 0
    {
      assert Peek(0);
      SlabArithmetic(size);
      forall o: Obj
        ensures o in LiveObjects() <==> o in LiveSet()
      {
        LiveOfIs(slabs, all, ObjectsPerSlab(size), ownInfo, o);
      }
      forall p | p in all
        ensures p in slabs
      {
        var i := Q.IndexOf(all, p);
        assert NextAt(slabs, all, i);
      }
      UsedAreLive(slabs, all, ObjectsPerSlab(size), ownInfo);
    }

    /** A slot that is no object, in a slab that has no free slot: once it was given back, it is what
        the next allocation hands out. */
    method ReservedIsHandedOut(ptr: nat, p: Ptr) returns (r: FreeResult, addr: nat)
      requires Valid() && p in slabs && InSlab(slabs[p], SlabSize(size), ptr) && slabs[p].numFree == 0
      requires Reserved(slabs, size, ownInfo, ptr)
      modifies this
      ensures r.Freed? && addr == ptr
    {
      ApartNow();
      NoneFree(p);
      ghost var o;
      r, o := Free(ptr);
      assert o.slab == p;
      OnlyFree(old(slabs)[p], slabs[p], o.idx, old(firstFree));
      addr, o := TakeFirst();
    }

    /** The one slab there is comes first while it has a free slot. */
    lemma OnlySlabFirst(p: Ptr)
      requires Valid() && slabs.Keys == {p} && slabs[p].numFree > 0
      ensures firstFree == p && HasFree(slabs[p].free)
    {
      assert Peek(0);
      assert p in chain && chain[0] in chain;
      assert FreeAt(slabs, chain, 0);
      FirstHasFree();
    }

    lemma NoneFree(p: Ptr)
      requires Valid() && p in slabs && slabs[p].numFree == 0
      ensures |slabs[p].free| == WORDS && forall i: nat :: !In(slabs[p].free, i)
    {
      assert Peek(0);
      assert SlabOk(slabs[p], ObjectsPerSlab(size), ownInfo);
      MembersIs(slabs[p].free);
      assert Members(slabs[p].free) == {};
    }

    /** How many slots are in use, which are the live objects and the slots of the slabs' own
        records, and how many there are. */
    method Count() returns (used: int, total: nat)
      requires Valid()
      ensures total == Times(|all|, ObjectsPerSlab(size))
      ensures used == |LiveObjects()| + if ownInfo then |all| else 0
      ensures forall o :: o in LiveObjects() <==> o in LiveSet()
    {
      LiveObjectsAre();
      used, total := CountSlots();
    }

    /** The sums along the list of slabs. */
    method CountSlots() returns (used: int, total: nat)
      requires Valid()
      ensures total == Times(|all|, ObjectsPerSlab(size)) && used == UsedSlots(slabs, all, ObjectsPerSlab(size))
    {
      ListEnds();
      var n := ObjectsPerSlab(size);
      var free := 0;
      total := 0;
      ghost var i := 0;
      var p := first;
      while p != Null
        invariant 0 <= i <= |all| && (if i < |all| then p == all[i] && p != Null else p == Null)
        invariant total == Times(i, n) && total - free == UsedSlots(slabs, all[..i], n)
        decreases |all| - i
      {
        ListAt(i);
        assert all[..i + 1][..i] == all[..i];
        total := total + n;
        free := free + slabs[p].numFree;
        p := slabs[p].next;
        i := i + 1;
      }
      assert all[..|all|] == all;
      used := total - free;
    }
  }

  /** An allocator with one slab, all objects of which are handed out. */
  method FilledSlab(size: nat, own: bool, base: nat, p: Ptr) returns (a: SlabAllocator)
    requires 8 <= size < PAGE_SIZE && p != Null
    ensures fresh(a) && a.Valid() && a.size == size && a.ownInfo == own
    ensures a.slabs.Keys == {p} && a.slabs[p].base == base && a.slabs[p].numFree == 0
  {
    a := new SlabAllocator(size, own);
    a.AddSlab(base, p);
    while a.slabs[p].numFree > 0
      invariant a.Valid() && a.slabs.Keys == {p} && a.slabs[p].base == base
      decreases a.slabs[p].numFree
    {
      a.OnlySlabFirst(p);
      var taken;
      ghost var o;
      taken, o := a.TakeFirst();
    }
  }

  /** So a slab that is filled and then given such a slot hands it out: the slot after the last
      object, from where an object would reach beyond the slab, or that of the slab's own record. */
  method HandsOutNoObject(size: nat, own: bool, base: nat, p: Ptr) returns (r: FreeResult, addr: nat)
    requires 8 <= size < PAGE_SIZE && p != Null && if own then p == base else ObjectsPerSlab(size) * size < SlabSize(size)
    ensures r.Freed? && addr == base + (if own then 0 else ObjectsPerSlab(size)) * size
    ensures if own then addr == p else addr + size > base + SlabSize(size)
  {
    var a := FilledSlab(size, own, base, p);
    QuotientBounds(SlabSize(size), size);
    var slot := if own then 0 else ObjectsPerSlab(size);
    assert Addr(a.slabs, size, Obj(p, slot)) == base + slot * size;
    a.ReservedIs(base + slot * size, p, slot);
    r, addr := a.ReservedIsHandedOut(base + slot * size, p);
  }

  /** There are such sizes: 170 objects of 24 bytes leave room for the start of another. */
  lemma SizesWithRemainder()
    ensures ObjectsPerSlab(24) == 170 && ObjectsPerSlab(24) * 24 < SlabSize(24)
  {
  }

  /** `k` times `n`, by addition. */
  function Times(k: nat, n: nat): nat {
    if k == 0 then 0 else Times(k - 1, n) + n
  }

  /** A slot that is no object: it starts inside a slab, but is the one after the last object, or
      the one that holds the slab's own record. */
  ghost predicate Reserved(slabs: map<Ptr, SlabInfo>, size: nat, own: bool, ptr: nat)
    requires size > 0
  {
    exists o: Obj :: o.slab in slabs && InSlab(slabs[o.slab], SlabSize(size), ptr) && ptr == Addr(slabs, size, o)
                     && (o.idx >= ObjectsPerSlab(size) || (own && o.idx == 0))
  }

  /** An offset that is not the start of the slot it falls into is the start of none. */
  lemma SlotOf(off: nat, size: nat)
    requires size > 0
    ensures off != (off / size) * size ==> forall i: nat :: off != i * size
  {
    var q := off / size;
    QuotientBounds(off, size);
    forall i: nat
      ensures off == i * size ==> i == q
    {
      SameQuotient(off, i, q, size);
    }
  }

  lemma SameQuotient(off: nat, i: nat, q: nat, size: nat)
    requires q * size <= off < (q + 1) * size
    ensures off == i * size ==> i == q
  {
    if i < q {
      Products(i, q, size);
    } else if q < i {
      Products(q, i, size);
    }
  }

  lemma SameSlot(i: nat, j: nat, size: nat)
    requires size > 0 && i * size == j * size
    ensures i == j
  {
    if i < j {
      Products(i, j, size);
    } else if j < i {
      Products(j, i, size);
    }
  }

  lemma SlotHasBit(size: nat, idx: nat)
    requires 8 <= size < PAGE_SIZE && idx * size < SlabSize(size)
    ensures idx < SLOTS
  {
    if size < 512 {
      Strictly(idx, size, 8, SlabSize(size));
    } else if size < 1024 {
      Strictly(idx, size, 512, SlabSize(size));
    } else if size < 2048 {
      Strictly(idx, size, 1024, SlabSize(size));
    } else {
      Strictly(idx, size, 2048, SlabSize(size));
    }
  }

  lemma Strictly(n: nat, size: nat, least: nat, bytes: nat)
    requires least <= size && n * size < bytes
    ensures n * least < bytes
  {
  }

  /** No other slot has the address of object `u`. */
  lemma SlotIsUnique(size: nat, own: bool, slabs: map<Ptr, SlabInfo>, n: nat, bytes: nat, u: Obj)
    requires size > 0 && n * size <= bytes && Apart(slabs, bytes) && IsLive(slabs, n, own, u)
    ensures var ptr := Addr(slabs, size, u);
            && InSlab(slabs[u.slab], bytes, ptr)
            && (forall p :: p in slabs && InSlab(slabs[p], bytes, ptr) ==> p == u.slab)
            && (forall i: nat :: ptr == Addr(slabs, size, Obj(u.slab, i)) ==> i == u.idx)
  {
    Products(u.idx, n, size);
    forall i: nat | Addr(slabs, size, u) == Addr(slabs, size, Obj(u.slab, i))
      ensures i == u.idx
    {
      if i < u.idx {
        Products(i, u.idx, size);
      } else if u.idx < i {
        Products(u.idx, i, size);
      }
    }
  }

  /** No object of a new slab is live. */
  lemma NewSlabLive(slabs: map<Ptr, SlabInfo>, n: nat, own: bool, p: Ptr, s: SlabInfo)
    requires p !in slabs && forall j: nat :: In(s.free, j) <==> j < n && !(own && j == 0)
    ensures Live(slabs[p := s], n, own) == Live(slabs, n, own)
  {
  }

  lemma GiveLive(slabs: map<Ptr, SlabInfo>, n: nat, own: bool, p: Ptr, t: SlabInfo, i: nat)
    requires p in slabs && i < n && !In(slabs[p].free, i) && !(own && i == 0)
    requires forall j: nat :: In(t.free, j) <==> j == i || In(slabs[p].free, j)
    ensures Obj(p, i) in Live(slabs, n, own)
    ensures Live(slabs[p := t], n, own) == Live(slabs, n, own) - iset{Obj(p, i)}
  {
  }

  ghost predicate HasFree(free: Words) {
    Clean(free, SLOTS) && exists i: nat :: In(free, i)
  }

  /** The lowest free slot of a slab of the chain; there always is one. */
  method FindFree(free: Words) returns (i: nat)
    requires HasFree(free)
    ensures In(free, i) && forall j: nat :: j < i ==> !In(free, j)
  {
    var r := FindNext(free, SLOTS, 0);
    i := r.value;
  }

  lemma OnlyFree(s: SlabInfo, t: SlabInfo, i: nat, firstFree: Ptr)
    requires |s.free| == WORDS && s.numFree == 0 && (forall j: nat :: !In(s.free, j)) && i < Room(s.free) && t == GivenTo(s, i, firstFree)
    ensures t.numFree == 1 && HasFree(t.free) && forall j: nat :: In(t.free, j) <==> j == i
  {
    forall j: nat
      ensures In(t.free, j) <==> j == i
    {
      SetIn(s.free, i, true, j);
    }
    assert In(t.free, i);
  }

  lemma SomeFree(s: SlabInfo, n: nat, own: bool)
    requires SlabOk(s, n, own) && s.numFree > 0
    ensures exists i: nat :: In(s.free, i)
  {
    MembersIs(s.free);
    var i :| i in Members(s.free);
    assert In(s.free, i);
  }

  lemma TakeLive(slabs: map<Ptr, SlabInfo>, n: nat, own: bool, p: Ptr, t: SlabInfo, i: nat)
    requires p in slabs && i < n && In(slabs[p].free, i) && (own ==> !In(slabs[p].free, 0))
    requires forall j: nat :: In(t.free, j) <==> j != i && In(slabs[p].free, j)
    ensures Obj(p, i) !in Live(slabs, n, own)
    ensures Live(slabs[p := t], n, own) == Live(slabs, n, own) + iset{Obj(p, i)}
  {
  }
}
