/** Whole runs of the virtual allocator, explained by a plain set of free addresses. */
module VirtualRuns {
  import opened Basics
  import opened Regions
  import opened VirtualAlloc

  datatype Op = FreeOp(region: Region) | AllocOp(size: nat) | ReserveOp(region: Region)

  datatype Event =
    | Freed(region: Region, ok: bool)
    | Alloced(size: nat, result: Allocation)
    | Reserved(region: Region, reply: Reservation)

  /** What one call may answer when the free addresses are `f`, and what it leaves free. */
  ghost predicate Allowed(f: iset<int>, e: Event, f': iset<int>) {
    match e
    case Freed(r, ok) =>
      && (ok <==> PageAligned(r) && Addrs(r) !! f)
      && f' == (if ok then f + Addrs(r) else f)
    case Alloced(size, res) =>
      && (res.Panicked? <==> size % PAGE_SIZE != 0)
      && (res.OutOfSpace? ==> forall a :: !FreeRun(f, a, size))
      && (res.Allocated? ==> res.region.end == res.region.start + size && Addrs(res.region) <= f)
      && f' == (if res.Allocated? then f - Addrs(res.region) else f)
    case Reserved(r, reply) =>
      && (reply.Refused? <==> !PageAligned(r))
      && (reply.Done? ==> (reply.ok <==> Addrs(r) <= f))
      && f' == (if reply.Done? && reply.ok then f - Addrs(r) else f)
  }

  /** The log of a run, explained by the free sets before and after each call. */
  ghost predicate Explains(fs: seq<iset<int>>, log: seq<Event>) {
    && |fs| == |log| + 1
    && (forall i, j :: 0 <= i < |log| && j == i + 1 ==> Allowed(fs[i], log[i], fs[j]))
  }

  ghost predicate Answers(op: Op, e: Event) {
    match op
    case FreeOp(r) => e.Freed? && e.region == r
    case AllocOp(size) => e.Alloced? && e.size == size
    case ReserveOp(r) => e.Reserved? && e.region == r
  }

  /** Every run from the empty allocator keeps the chain well linked, sorted, coalesced and
      without empty pages, and all its answers are those of the set of free addresses. */
  method Run(ops: seq<Op>) returns (alloc: VirtualAllocator, log: seq<Event>, ghost fs: seq<iset<int>>)
    requires forall i :: 0 <= i < |ops| && !ops[i].AllocOp? ==> ops[i].region.start <= ops[i].region.end
    ensures alloc.Valid() && |log| == |ops|
    ensures forall i :: 0 <= i < |ops| ==> Answers(ops[i], log[i])
    ensures Explains(fs, log) && fs[0] == iset{} && fs[|log|] == alloc.Free()
  {
    alloc := new VirtualAllocator();
    log, fs := [], [iset{}];
    for k := 0 to |ops|
      invariant fresh(alloc) && alloc.Valid() && |log| == k
      invariant forall i :: 0 <= i < k ==> Answers(ops[i], log[i])
      invariant Explains(fs, log) && fs[0] == iset{} && fs[k] == alloc.Free()
    {
      var e := Perform(alloc, ops[k]);
      log, fs := log + [e], fs + [alloc.Free()];
    }
  }

  method Perform(alloc: VirtualAllocator, op: Op) returns (e: Event)
    requires alloc.Valid() && (!op.AllocOp? ==> op.region.start <= op.region.end)
    modifies alloc
    ensures alloc.Valid() && Answers(op, e) && Allowed(old(alloc.Free()), e, alloc.Free())
  {
    match op {
      case FreeOp(r) =>
        var ok := alloc.FreeRegion(r);
        e := Freed(r, ok);
      case AllocOp(size) =>
        var res := alloc.Alloc(size);
        e := Alloced(size, res);
      case ReserveOp(r) =>
        var reply := alloc.Reserve(r);
        e := Reserved(r, reply);
    }
  }

  /** The addresses that an event hands to the caller. */
  ghost function Taken(e: Event): iset<int> {
    match e
    case Freed(_, _) => iset{}
    case Alloced(_, res) => if res.Allocated? then Addrs(res.region) else iset{}
    case Reserved(r, reply) => if reply.Done? && reply.ok then Addrs(r) else iset{}
  }

  ghost function GivenBack(e: Event): iset<int> {
    if e.Freed? && e.ok then Addrs(e.region) else iset{}
  }

  /** An address that was handed out and not freed since is not free. */
  lemma {:induction false} HandedOutStaysOut(fs: seq<iset<int>>, log: seq<Event>, i: int, j: int, a: int)
    requires Explains(fs, log) && 0 <= i < j <= |log| && a in Taken(log[i])
    requires forall k :: i < k < j ==> a !in GivenBack(log[k])
    ensures a !in fs[j]
    decreases j
  {
    assert Allowed(fs[j - 1], log[j - 1], fs[j]);
    if i < j - 1 {
      HandedOutStaysOut(fs, log, i, j - 1, a);
    }
  }

  /** In every run, no address is handed out a second time before it was freed. */
  lemma HandedOutOnce(fs: seq<iset<int>>, log: seq<Event>, i: int, j: int, a: int)
    requires Explains(fs, log) && 0 <= i < j < |log|
    requires a in Taken(log[i]) && a in Taken(log[j])
    ensures exists k :: i < k < j && a in GivenBack(log[k])
  {
    assert Allowed(fs[j], log[j], fs[j + 1]);
    assert a in fs[j];
    if forall k :: i < k < j ==> a !in GivenBack(log[k]) {
      HandedOutStaysOut(fs, log, i, j, a);
    }
  }
}
