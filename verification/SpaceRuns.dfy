/** Runs of mappings and new address spaces after start-up: every page of every space translates
    as the last successful call for it said.
 */
module SpaceRuns {
  import opened Basics
  import opened PageTables
  import opened AddressSpaces

  /** Spaces are numbered in the order of their creation; the kernel's is number 0. */
  datatype Op =
    | MapUser(space: nat, va: nat, mapping: Option<Mapping>)
    | MapKernel(va: nat, mapping: Option<Mapping>)
    | Create

  predicate IsPage(va: nat) {
    Canonical(va) && va % 0x1000 == 0
  }

  predicate LegalOp(op: Op) {
    match op
    case MapUser(_, va, _) => Canonical(va)
    case MapKernel(va, _) => Canonical(va)
    case Create => true
  }

  /** What the first `n` calls say of page `va` of space `k`, whether or not that exists yet: what
      the last successful one for that page said; a page of the upper half is that of all spaces.
      At first the lower halves are empty and the upper half is `m0`'s. */
  function Told(m0: Memory, kernel: Addr, ops: seq<Op>, outs: seq<Outcome>, n: nat, k: nat, va: nat): Option<Mapping>
    requires n <= |ops| && n <= |outs|
  {
    if n == 0 then (if Index(4, va) >= 256 then GetPage(m0, kernel, va) else None)
    else
      var before := Told(m0, kernel, ops, outs, n - 1, k, va);
      if !outs[n - 1].Done? then before
      else
        match ops[n - 1]
        case MapUser(j, v, mapping) => if j == k && v == va then mapping else before
        case MapKernel(v, mapping) => if v == va then mapping else before
        case Create => before
  }

  /** A call that succeeded named a user space that existed, or an address of the right half. */
  predicate Lawful(op: Op, out: Outcome, count: nat) {
    out.Done? ==>
      match op
      case MapUser(j, v, _) => 0 < j < count && v < 0x8000_0000_0000
      case MapKernel(v, _) => v >= UPPER_HALF
      case Create => true
  }

  ghost predicate AllLawful(ops: seq<Op>, outs: seq<Outcome>, n: nat, count: nat) {
    n <= |ops| && n <= |outs| && forall i :: 0 <= i < n ==> Lawful(ops[i], outs[i], count)
  }

  /** Of the upper half the calls say the same for every space, and of the lower half of a space
      that does not exist nothing. */
  lemma {:induction false} ToldOfNew(m0: Memory, kernel: Addr, ops: seq<Op>, outs: seq<Outcome>, n: nat, count: nat, k: nat, va: nat)
    requires AllLawful(ops, outs, n, count) && Canonical(va) && count <= k
    ensures Told(m0, kernel, ops, outs, n, k, va)
         == if Index(4, va) >= 256 then Told(m0, kernel, ops, outs, n, 0, va) else None
  {
    UpperHalfIndex(va);
    if n > 0 {
      ToldOfNew(m0, kernel, ops, outs, n - 1, count, k, va);
      assert Lawful(ops[n - 1], outs[n - 1], count);
    }
  }

  /** A page for which no call succeeded translates as it did at first. */
  lemma {:induction false} Untouched(m0: Memory, kernel: Addr, ops: seq<Op>, outs: seq<Outcome>, n: nat, k: nat, va: nat)
    requires n <= |ops| && n <= |outs|
    requires forall i :: 0 <= i < n && outs[i].Done? ==> ops[i].Create? || ops[i].va != va || (ops[i].MapUser? && ops[i].space != k)
    ensures Told(m0, kernel, ops, outs, n, k, va) == Told(m0, kernel, ops, outs, 0, k, va)
  {
    if n > 0 {
      Untouched(m0, kernel, ops, outs, n - 1, k, va);
    }
  }

  lemma SamePage(va: nat, va': nat)
    requires IsPage(va) && IsPage(va')
    ensures PageNumber(va) == PageNumber(va') <==> va == va'
  {
    PageOf(va);
    PageOf(va');
  }

  lemma PageOf(va: nat)
    requires IsPage(va)
    ensures va == 0x1000 * PageNumber(va) + if va < 0x8000_0000_0000 then 0 else 0xffff_0000_0000_0000
    ensures PageNumber(va) < 0x8_0000_0000 <==> va < 0x8000_0000_0000
  {
    var p := va / 0x1000;
    if va >= 0x8000_0000_0000 {
      assert p == 0xf_fff0_0000_0000 + (p - 0xf_fff0_0000_0000);
    }
  }

  /** The roots of the spaces in the order of their creation. */
  ghost predicate Roots(roots: seq<Addr>, spaces: set<Addr>, kernel: Addr) {
    roots != [] && roots[0] == kernel && Distinct(roots) && forall k :: 0 <= k < |roots| ==> roots[k] in spaces
  }

  /** Space `k` translates every page as the calls say. */
  ghost predicate AsTold(m: Memory, root: Addr, m0: Memory, kernel: Addr, ops: seq<Op>, outs: seq<Outcome>, n: nat, k: nat)
    requires n <= |ops| && n <= |outs|
  {
    forall va :: IsPage(va) ==> GetPage(m, root, va) == Told(m0, kernel, ops, outs, n, k, va)
  }

  /** Every space but the one a user call names keeps its translations, and so on: one call on the
      machine and on what the calls say. */
  ghost predicate Does(op: Op, out: Outcome, m: Memory, m': Memory, roots: seq<Addr>, roots': seq<Addr>) {
    && (if op.Create? && out.Done? then
          |roots'| == |roots| + 1 && roots'[..|roots|] == roots && roots != []
          && forall va :: GetPage(m', roots'[|roots|], va) == if Index(4, va) < 256 then None else GetPage(m, roots[0], va)
        else roots' == roots)
    && forall k, va :: 0 <= k < |roots| && IsPage(va) ==> GetPage(m', roots[k], va) == NewPage(op, out, k, va, GetPage(m, roots[k], va))
  }

  /** In a user space nothing above the last entries keeps code from a page of the lower half. */
  ghost predicate LowerOpen(m: Memory, root: Addr) {
    forall va :: Index(4, va) < 256 ==> Above(m, root, 4, va) == FULL
  }

  ghost predicate AllOpen(m: Memory, roots: seq<Addr>) {
    forall n: nat {:trigger Look(n)} :: Look(n) ==> forall k :: 0 < k < |roots| ==> LowerOpen(m, roots[k])
  }

  lemma OneMoreOpen(m: Memory, roots: seq<Addr>, root: Addr)
    requires AllOpen(m, roots) && forall va :: Index(4, va) < 256 ==> Above(m, root, 4, va) == FULL
    ensures AllOpen(m, roots + [root])
  {
    assert Look(0) && LowerOpen(m, root);
  }

  lemma StaysOpen(m: Memory, m': Memory, spaces: set<Addr>, roots: seq<Addr>)
    requires SameAccess(m, m', spaces) && (forall k :: 0 <= k < |roots| ==> roots[k] in spaces)
    ensures AllOpen(m, roots) ==> AllOpen(m', roots)
  {
    if AllOpen(m, roots) {
      assert Look(0);
      forall k, va | 0 < k < |roots| && Index(4, va) < 256
        ensures Above(m', roots[k], 4, va) == FULL
      {
        assert LowerOpen(m, roots[k]);
      }
    }
  }

  function NewPage(op: Op, out: Outcome, k: nat, va: nat, before: Option<Mapping>): Option<Mapping> {
    if !out.Done? then before
    else
      match op
      case MapUser(j, v, mapping) => if j == k && v == va then mapping else before
      case MapKernel(v, mapping) => if v == va then mapping else before
      case Create => before
  }

  lemma DoesAsTold(m: Memory, m': Memory, roots: seq<Addr>, roots': seq<Addr>, m0: Memory, kernel: Addr, ops: seq<Op>, outs: seq<Outcome>, out: Outcome)
    requires |outs| < |ops| && AllLawful(ops, outs, |outs|, |roots|) && roots != []
    requires Does(ops[|outs|], out, m, m', roots, roots')
    requires forall k :: 0 <= k < |roots| ==> AsTold(m, roots[k], m0, kernel, ops, outs, |outs|, k)
    ensures forall k :: 0 <= k < |roots'| ==> AsTold(m', roots'[k], m0, kernel, ops, outs + [out], |outs| + 1, k)
  {
    var n := |outs|;
    forall k, va | 0 <= k < |roots'| && IsPage(va)
      ensures GetPage(m', roots'[k], va) == Told(m0, kernel, ops, outs + [out], n + 1, k, va)
    {
      ToldPrefix(m0, kernel, ops, outs, out, n, k, va);
      assert AsTold(m, roots[0], m0, kernel, ops, outs, n, 0);
      if k < |roots| {
        assert roots'[k] == roots[k] && AsTold(m, roots[k], m0, kernel, ops, outs, n, k);
      } else {
        ToldOfNew(m0, kernel, ops, outs, n, |roots|, k, va);
      }
    }
  }

  lemma {:induction false} ToldPrefix(m0: Memory, kernel: Addr, ops: seq<Op>, outs: seq<Outcome>, out: Outcome, n: nat, k: nat, va: nat)
    requires n <= |ops| && n <= |outs|
    ensures Told(m0, kernel, ops, outs + [out], n, k, va) == Told(m0, kernel, ops, outs, n, k, va)
  {
    if n > 0 {
      ToldPrefix(m0, kernel, ops, outs, out, n - 1, k, va);
    }
  }

  /** The tables, the number of free frames and the spaces between two calls. */
  datatype Snapshot = Snapshot(m: Memory, frames: nat, roots: seq<Addr>)

  /** How a call comes out. */
  function Reply(s: Snapshot, op: Op): Outcome
    requires s.roots != []
  {
    match op
    case MapUser(j, v, mapping) =>
      if j == 0 || j >= |s.roots| || v >= 0x8000_0000_0000 then WrongSpace
      else Verdict(s.m, s.roots[j], v, mapping, s.frames)
    case MapKernel(v, mapping) =>
      if v < UPPER_HALF then WrongSpace else Verdict(s.m, s.roots[0], v, mapping, s.frames)
    case Create => if s.frames < 2 then OutOfMemory else Done
  }

  ghost predicate Replied(trace: seq<Snapshot>, ops: seq<Op>, outs: seq<Outcome>, i: nat)
    requires i < |trace| && i < |ops| && i < |outs|
  {
    trace[i].roots != [] && outs[i] == Reply(trace[i], ops[i])
  }

  /** One call. A user call for a space that does not exist cannot be made; it is passed over. */
  method Do(machine: Machine, roots: seq<Addr>, op: Op) returns (out: Outcome, roots': seq<Addr>)
    requires machine.Valid() && Roots(roots, machine.spaces, machine.kernel) && LegalOp(op)
    modifies machine`tables, machine`free, machine`ids, machine`spaces
    ensures machine.Valid() && Roots(roots', machine.spaces, machine.kernel)
    ensures out == Reply(Snapshot(old(machine.tables), |old(machine.free)|, roots), op)
    ensures Lawful(op, out, |roots|) && |roots'| >= |roots|
    ensures Does(op, out, old(machine.tables), machine.tables, roots, roots')
    ensures AllOpen(old(machine.tables), roots) ==> AllOpen(machine.tables, roots')
  {
    ghost var m, spaces := machine.tables, machine.spaces;
    roots' := roots;
    match op {
      case MapUser(j, v, mapping) =>
        if j >= |roots| {
          return WrongSpace, roots;
        }
        out := machine.SetPageUser(roots[j], v, mapping);
        StaysOpen(m, machine.tables, spaces, roots);
        UserDoes(m, machine.tables, roots, machine.spaces, machine.kernel, j, v, mapping, out);
      case MapKernel(v, mapping) =>
        out := machine.SetPageKernel(roots[0], v, mapping);
        StaysOpen(m, machine.tables, spaces, roots);
        KernelDoes(m, machine.tables, roots, machine.spaces, machine.kernel, v, mapping, out);
      case Create =>
        var created := machine.NewSpace();
        StaysOpen(m, machine.tables, spaces, roots);
        if created.None? {
          return OutOfMemory, roots;
        }
        roots' := roots + [created.value];
        if AllOpen(m, roots) {
          OneMoreOpen(machine.tables, roots, created.value);
        }
        out := Done;
    }
  }

  lemma UserDoes(m: Memory, m': Memory, roots: seq<Addr>, spaces: set<Addr>, kernel: Addr, j: nat, v: nat, mapping: Option<Mapping>, out: Outcome)
    requires Roots(roots, spaces, kernel) && j < |roots| && Canonical(v)
    requires out.Done? ==> v % 0x1000 == 0 && v < 0x8000_0000_0000 && GetPage(m', roots[j], v) == mapping
    requires forall s, va' :: s in spaces && (!out.Done? || s != roots[j] || Index(4, va') >= 256 || PageNumber(va') != PageNumber(v))
                              ==> GetPage(m', s, va') == GetPage(m, s, va')
    ensures Does(MapUser(j, v, mapping), out, m, m', roots, roots)
  {
    forall k, va | 0 <= k < |roots| && IsPage(va)
      ensures GetPage(m', roots[k], va) == NewPage(MapUser(j, v, mapping), out, k, va, GetPage(m, roots[k], va))
    {
      if out.Done? && IsPage(v) {
        SamePage(va, v);
      }
    }
  }

  lemma KernelDoes(m: Memory, m': Memory, roots: seq<Addr>, spaces: set<Addr>, kernel: Addr, v: nat, mapping: Option<Mapping>, out: Outcome)
    requires Roots(roots, spaces, kernel) && Canonical(v)
    requires out.Done? ==> v % 0x1000 == 0 && forall s :: s in spaces ==> GetPage(m', s, v) == mapping
    requires forall s, va' :: s in spaces && (!out.Done? || PageNumber(va') != PageNumber(v)) ==> GetPage(m', s, va') == GetPage(m, s, va')
    ensures Does(MapKernel(v, mapping), out, m, m', roots, roots)
  {
    forall k, va | 0 <= k < |roots| && IsPage(va)
      ensures GetPage(m', roots[k], va) == NewPage(MapKernel(v, mapping), out, k, va, GetPage(m, roots[k], va))
    {
      if out.Done? {
        SamePage(va, v);
      }
    }
  }

  /** What the flags of a mapping let code do. */
  function Rights(mapping: Option<Mapping>): Option<Access> {
    match mapping
    case None => None
    case Some(p) => Some(Access(p.flags.user, p.flags.writeable, p.flags.executable))
  }

  /** A run from an initialised kernel space. Every call comes out as the tables and the free frames
      before it say. At the end every page of every space translates as the last successful call
      for it said, code may do with a page of a user space exactly what that call said, and all
      spaces translate the upper half alike. */
  method Run(machine: Machine, ops: seq<Op>) returns (outs: seq<Outcome>, roots: seq<Addr>, ghost trace: seq<Snapshot>)
    requires machine.Valid() && machine.spaces == {machine.kernel} && (forall op :: op in ops ==> LegalOp(op))
    requires forall va :: Index(4, va) < 256 ==> GetPage(machine.tables, machine.kernel, va) == None
    modifies machine`tables, machine`free, machine`ids, machine`spaces
    ensures machine.Valid() && |outs| == |ops| && Roots(roots, machine.spaces, machine.kernel)
    ensures |trace| == |ops| + 1 && forall i :: 0 <= i < |ops| ==> Replied(trace, ops, outs, i)
    ensures trace[0] == Snapshot(old(machine.tables), |old(machine.free)|, [machine.kernel])
    ensures trace[|ops|] == Snapshot(machine.tables, |machine.free|, roots)
    ensures AllLawful(ops, outs, |ops|, |roots|)
    ensures forall k, va :: 0 <= k < |roots| && IsPage(va)
              ==> GetPage(machine.tables, roots[k], va) == Told(old(machine.tables), machine.kernel, ops, outs, |ops|, k, va)
    ensures forall k, va :: 0 < k < |roots| && IsPage(va) && Index(4, va) < 256
              ==> Permitted(machine.tables, roots[k], va) == Rights(Told(old(machine.tables), machine.kernel, ops, outs, |ops|, k, va))
    ensures forall k, va :: 0 <= k < |roots| && Index(4, va) >= 256
              ==> GetPage(machine.tables, roots[k], va) == GetPage(machine.tables, machine.kernel, va)
  {
    ghost var m0 := machine.tables;
    outs, roots := [], [machine.kernel];
    trace := [Snapshot(machine.tables, |machine.free|, roots)];
    for i := 0 to |ops|
      invariant machine.Valid() && |outs| == i && Roots(roots, machine.spaces, machine.kernel)
      invariant |trace| == i + 1 && trace[0] == Snapshot(m0, |old(machine.free)|, [machine.kernel])
      invariant trace[i] == Snapshot(machine.tables, |machine.free|, roots)
      invariant forall j :: 0 <= j < i ==> Replied(trace, ops, outs, j)
      invariant AllLawful(ops, outs, i, |roots|) && AllOpen(machine.tables, roots)
      invariant forall k :: 0 <= k < |roots| ==> AsTold(machine.tables, roots[k], m0, machine.kernel, ops, outs, i, k)
    {
      ghost var m, rs := machine.tables, roots;
      assert ops[i] in ops;
      var out;
      out, roots := Do(machine, roots, ops[i]);
      DoesAsTold(m, machine.tables, rs, roots, m0, machine.kernel, ops, outs, out);
      ghost var seen, given := trace, outs;
      outs := outs + [out];
      trace := trace + [Snapshot(machine.tables, |machine.free|, roots)];
      forall j | 0 <= j <= i
        ensures Replied(trace, ops, outs, j)
      {
        assert j < i ==> Replied(seen, ops, given, j);
      }
    }
    forall k, va | 0 <= k < |roots| && Index(4, va) >= 256
      ensures GetPage(machine.tables, roots[k], va) == GetPage(machine.tables, machine.kernel, va)
    {
      UpperWalksAgree(machine.tables, roots[k], machine.kernel, va);
    }
    forall k, va | 0 <= k < |roots| && IsPage(va)
      ensures GetPage(machine.tables, roots[k], va) == Told(m0, machine.kernel, ops, outs, |ops|, k, va)
    {
      assert AsTold(machine.tables, roots[k], m0, machine.kernel, ops, outs, |ops|, k);
    }
    forall k, va | 0 < k < |roots| && IsPage(va) && Index(4, va) < 256
      ensures Permitted(machine.tables, roots[k], va) == Rights(Told(m0, machine.kernel, ops, outs, |ops|, k, va))
    {
      assert Look(0) && LowerOpen(machine.tables, roots[k]);
      OpenPermits(machine.tables, roots[k], va);
    }
  }
}
