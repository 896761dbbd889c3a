/** The physical frame allocator: a stack of free frames that is stored inside the free frames.
 */
module Frames {
  import opened Basics

  type Frame = nat

  const PER_PAGE: nat := 512

  /** Physical memory, one page of words per frame. Clients write to it too. */
  type Memory = map<Frame, seq<nat>>

  /** Memory after the word at index `i` of frame `f` is written. */
  function Poke(mem: Memory, f: Frame, i: nat, v: nat): Memory
    requires f in mem && i < |mem[f]|
  {
    var page: seq<nat> := mem[f][i := v];
    mem[f := page]
  }

  // ---- how the stack lies in memory ----

  /** The position in the stack of the frame whose page holds position `k`. */
  function Base(k: nat): nat {
    k - k % PER_PAGE
  }

  /** Position `k` is stored: a frame that starts a page is known by being that page, whose first
      word leads to the page before; any other frame is a word of its page. */
  ghost predicate Stored(mem: Memory, stack: seq<Frame>, k: nat)
    requires k < |stack| && stack[Base(k)] in mem && |mem[stack[Base(k)]]| == PER_PAGE
  {
    mem[stack[Base(k)]][k % PER_PAGE]
    == if k % PER_PAGE != 0 then stack[k] else if k == 0 then 0 else stack[k - PER_PAGE]
  }

  ghost predicate InMemory(mem: Memory, stack: seq<Frame>) {
    && (forall i, j :: 0 <= i < j < |stack| ==> stack[i] != stack[j])
    && (forall f :: f in stack ==> f in mem)
    && (forall f :: f in mem ==> |mem[f]| == PER_PAGE)
  }

  ghost predicate Rep(mem: Memory, count: nat, top: Option<Frame>, stack: seq<Frame>) {
    && count == |stack|
    && InMemory(mem, stack)
    && top == (if stack == [] then None else Some(stack[Base(|stack| - 1)]))
    && (forall k :: 0 <= k < |stack| ==> Stored(mem, stack, k))
  }

  /** How many frames the page on top holds. */
  function OnTop(count: nat): nat
    requires count > 0
  {
    if count % PER_PAGE == 0 then PER_PAGE else count % PER_PAGE
  }

  lemma TopArithmetic(count: nat)
    requires count > 0
    ensures 1 <= OnTop(count) <= PER_PAGE
    ensures Base(count - 1) == count - OnTop(count)
    ensures OnTop(count) < PER_PAGE ==> count % PER_PAGE == OnTop(count) && Base(count) == Base(count - 1)
    ensures OnTop(count) == PER_PAGE ==> count % PER_PAGE == 0 && Base(count) == count && Base(count - 1) == count - PER_PAGE
    ensures OnTop(count) > 1 ==> (count - 1) % PER_PAGE == OnTop(count) - 1
    ensures OnTop(count) == 1 ==> (count - 1) % PER_PAGE == 0
    ensures OnTop(count) == 1 && count > 1 ==> count > PER_PAGE && Base(count - 2) == count - 1 - PER_PAGE
    ensures OnTop(count) > 1 ==> count > 1 && Base(count - 2) == Base(count - 1)
  {
    var q, r := count / PER_PAGE, count % PER_PAGE;
    assert count == PER_PAGE * q + r;
    if r == 0 {
      Remainder(count - 1, q - 1, PER_PAGE - 1);
      Remainder(count - 2, q - 1, PER_PAGE - 2);
    } else {
      Remainder(count - 1, q, r - 1);
      if r > 1 {
        Remainder(count - 2, q, r - 2);
      } else if count > 1 {
        Remainder(count - 2, q - 1, PER_PAGE - 1);
      }
    }
  }

  lemma Remainder(n: nat, q: nat, r: nat)
    requires n == PER_PAGE * q + r && r < PER_PAGE
    ensures n % PER_PAGE == r
  {
  }

  /** Writing a word of a frame that is not free changes nothing for the stack. */
  lemma ForeignWrite(mem: Memory, count: nat, top: Option<Frame>, stack: seq<Frame>, f: Frame, page: seq<nat>)
    requires Rep(mem, count, top, stack) && f in mem && f !in stack && |page| == PER_PAGE
    ensures Rep(mem[f := page], count, top, stack)
  {
    forall k | 0 <= k < |stack|
      ensures stack[Base(k)] in mem && Stored(mem[f := page], stack, k)
    {
      assert stack[Base(k)] in stack;
      assert Stored(mem, stack, k);
    }
  }

  /** Pushing a frame that starts a new page. */
  lemma PushPage(mem: Memory, stack: seq<Frame>, f: Frame)
    requires Rep(mem, |stack|, if stack == [] then None else Some(stack[Base(|stack| - 1)]), stack)
    requires f in mem && f !in stack && |stack| % PER_PAGE == 0
    ensures var link := if stack == [] then 0 else stack[|stack| - PER_PAGE];
            Rep(Poke(mem, f, 0, link), |stack| + 1, Some(f), stack + [f])
  {
    var link := if stack == [] then 0 else stack[|stack| - PER_PAGE];
    var mem', stack' := Poke(mem, f, 0, link), stack + [f];
    ForeignWrite(mem, |stack|, if stack == [] then None else Some(stack[Base(|stack| - 1)]), stack, f, mem'[f]);
    forall k | 0 <= k < |stack'|
      ensures stack'[Base(k)] in mem' && Stored(mem', stack', k)
    {
      if k < |stack| {
        assert Stored(mem', stack, k);
        assert stack'[Base(k)] == stack[Base(k)];
      }
    }
  }

  /** Pushing a frame that becomes a word of the page on top. */
  lemma PushWord(mem: Memory, stack: seq<Frame>, f: Frame)
    requires stack != [] && Rep(mem, |stack|, Some(stack[Base(|stack| - 1)]), stack)
    requires f in mem && f !in stack && |stack| % PER_PAGE != 0
    ensures var t := stack[Base(|stack| - 1)];
            t in mem && Rep(Poke(mem, t, |stack| % PER_PAGE, f), |stack| + 1, Some(t), stack + [f])
  {
    TopArithmetic(|stack|);
    var n, b := |stack|, Base(|stack| - 1);
    var t := stack[b];
    assert t in stack;
    var mem', stack' := Poke(mem, t, n % PER_PAGE, f), stack + [f];
    forall k | 0 <= k < |stack'|
      ensures stack'[Base(k)] in mem' && Stored(mem', stack', k)
    {
      if k < n {
        assert Stored(mem, stack, k);
        assert stack'[Base(k)] == stack[Base(k)];
        SamePage(k, n);
      }
    }
    assert stack'[Base(n)] == t;
  }

  /** Two positions on one page have different places on it. */
  lemma SamePage(k: nat, n: nat)
    requires k < n
    ensures Base(k) == Base(n) ==> k % PER_PAGE != n % PER_PAGE
  {
  }

  /** Popping leaves the rest stored as it was. */
  lemma Pop(mem: Memory, count: nat, top: Option<Frame>, stack: seq<Frame>)
    requires Rep(mem, count, top, stack) && stack != []
    ensures var rest := stack[..|stack| - 1];
            Rep(mem, count - 1, if rest == [] then None else Some(rest[Base(|rest| - 1)]), rest)
  {
    var rest := stack[..|stack| - 1];
    assert forall f :: f in rest ==> f in stack;
    forall k | 0 <= k < |rest|
      ensures rest[Base(k)] in mem && Stored(mem, rest, k)
    {
      assert Stored(mem, stack, k);
      assert rest[Base(k)] == stack[Base(k)] && stack[Base(k)] in stack;
    }
  }

  /** The stack as it lies in memory, opened by one look. */
  ghost predicate Holds(mem: Memory, count: nat, top: Option<Frame>, stack: seq<Frame>) {
    forall k: nat {:trigger Look(k)} :: Look(k) ==> Rep(mem, count, top, stack)
  }

  lemma Writable(mem: Memory, count: nat, top: Option<Frame>, stack: seq<Frame>, f: Frame)
    requires Holds(mem, count, top, stack) && f in mem
    ensures |mem[f]| == PER_PAGE && (count == 0 <==> stack == [])
    ensures count > 0 ==> top.Some? && top.value in stack && top.value in mem && |mem[top.value]| == PER_PAGE
  {
    assert Look(0);
    if count > 0 {
      assert stack[Base(count - 1)] in stack;
    }
  }

  /** Pushing a frame that becomes the page on top. */
  lemma HoldsPage(mem: Memory, count: nat, top: Option<Frame>, stack: seq<Frame>, f: Frame)
    requires Holds(mem, count, top, stack) && f in mem && f !in stack && (count == 0 || OnTop(count) == PER_PAGE)
    ensures |mem[f]| == PER_PAGE && (count > 0 ==> top.Some?)
    ensures Holds(Poke(mem, f, 0, if count == 0 then 0 else top.value), count + 1, Some(f), stack + [f])
  {
    assert Look(0);
    if count > 0 {
      TopArithmetic(count);
    }
    PushPage(mem, stack, f);
  }

  /** Pushing a frame that becomes a word of the page on top. */
  lemma HoldsWord(mem: Memory, count: nat, top: Option<Frame>, stack: seq<Frame>, f: Frame)
    requires Holds(mem, count, top, stack) && f in mem && f !in stack && count > 0 && OnTop(count) < PER_PAGE
    ensures top.Some? && top.value in mem && |mem[top.value]| == PER_PAGE
    ensures Holds(Poke(mem, top.value, OnTop(count), f), count + 1, top, stack + [f])
  {
    assert Look(0);
    TopArithmetic(count);
    Writable(mem, count, top, stack, f);
    PushWord(mem, stack, f);
  }

  // ---- the allocator ----

  class FrameAllocator {
    var mem: Memory
    var count: nat
    var top: Option<Frame>
    ghost var stack: seq<Frame>

    ghost predicate Valid()
      reads this
    {
      Holds(mem, count, top, stack)
    }

    constructor (memory: Memory)
      requires forall f :: f in memory ==> |memory[f]| == PER_PAGE
      ensures Valid() && stack == [] && mem == memory
    {
      mem, count, top, stack := memory, 0, None, [];
    }

    /** Pushes a frame that is not free. Only free frames are written to. */
    method FreeOne(f: Frame)
      requires Valid() && f in mem && f !in stack
      modifies this
      ensures Valid() && stack == old(stack) + [f]
      ensures mem.Keys == old(mem.Keys) && forall g :: g in mem && g !in stack ==> mem[g] == old(mem[g])
    {
      Writable(mem, count, top, stack, f);
      if count == 0 {
        HoldsPage(mem, count, top, stack, f);
        top := Some(f);
        mem := Poke(mem, f, 0, 0);
      } else {
        var i := OnTop(count);
        if i == PER_PAGE {
          HoldsPage(mem, count, top, stack, f);
          mem := Poke(mem, f, 0, top.value);
          top := Some(f);
        } else {
          HoldsWord(mem, count, top, stack, f);
          mem := Poke(mem, top.value, i, f);
        }
      }
      count := count + 1;
      stack := stack + [f];
    }

    /** Pops a frame, without writing to memory. */
    method AllocOne() returns (r: Option<Frame>)
      requires Valid()
      modifies this
      ensures Valid() && mem == old(mem)
      ensures old(stack) == [] ==> r == None && stack == []
      ensures old(stack) != [] ==> r == Some(old(stack)[|old(stack)| - 1]) && stack == old(stack)[..|old(stack)| - 1]
    {
      assert Look(0);
      if count == 0 {
        return None;
      }
      TopArithmetic(count);
      Pop(mem, count, top, stack);
      var i := OnTop(count);
      assert stack[Base(count - 1)] in stack;
      assert Stored(mem, stack, count - 1);
      if i == 1 {
        var t := top.value;
        top := if count == 1 then None else Some(mem[t][0]);
        r := Some(t);
      } else {
        r := Some(mem[top.value][i - 1]);
      }
      count := count - 1;
      stack := stack[..|stack| - 1];
    }

    /** A client writes to a frame that it holds. */
    method ClientWrite(f: Frame, i: nat, v: nat)
      requires Valid() && f in mem && f !in stack && i < PER_PAGE
      modifies this
      ensures Valid() && stack == old(stack) && i < |old(mem)[f]| && mem == Poke(old(mem), f, i, v)
    {
      assert Look(0);
      ForeignWrite(mem, count, top, stack, f, Poke(mem, f, i, v)[f]);
      mem := Poke(mem, f, i, v);
    }

    method FreeMany(frames: seq<Frame>)
      requires Valid() && (forall f :: f in frames ==> f in mem && f !in stack)
      requires forall i, j :: 0 <= i < j < |frames| ==> frames[i] != frames[j]
      modifies this
      ensures Valid() && stack == old(stack) + frames
      ensures mem.Keys == old(mem.Keys) && forall g :: g in mem && g !in stack ==> mem[g] == old(mem[g])
    {
      for n := 0 to |frames|
        invariant Valid() && stack == old(stack) + frames[..n]
        invariant mem.Keys == old(mem.Keys) && forall g :: g in mem && g !in stack ==> mem[g] == old(mem[g])
      {
        assert frames[n] in frames;
        assert frames[n] !in frames[..n];
        FreeOne(frames[n]);
        assert frames[..n + 1] == frames[..n] + [frames[n]];
      }
      assert frames[..|frames|] == frames;
    }

    /** All or nothing: the frames on top, the topmost first. */
    method AllocMany(frames: array<Frame>) returns (ok: bool)
      requires Valid()
      modifies this, frames
      ensures Valid() && mem == old(mem)
      ensures ok <==> frames.Length <= |old(stack)|
      ensures !ok ==> stack == old(stack) && frames[..] == old(frames[..])
      ensures ok ==> stack == old(stack)[..|old(stack)| - frames.Length]
      ensures ok ==> forall i :: 0 <= i < frames.Length ==> frames[i] == old(stack)[|old(stack)| - 1 - i]
    {
      assert Look(0);
      if count < frames.Length {
        return false;
      }
      ghost var n := |stack|;
      for k := 0 to frames.Length
        invariant Valid() && mem == old(mem) && stack == old(stack)[..n - k]
        invariant forall i :: 0 <= i < k ==> frames[i] == old(stack)[n - 1 - i]
      {
        var r := AllocOne();
        frames[k] := r.value;
      }
      ok := true;
    }
  }

  // ---- runs ----

  datatype Op = Free(frame: Frame) | Alloc | Write(frame: Frame, index: nat, word: nat)

  /** What the caller must respect: it frees and writes to frames that are not free. */
  predicate Legal(stack: seq<Frame>, frames: set<Frame>, op: Op) {
    match op
    case Free(f) => f in frames && f !in stack
    case Alloc => true
    case Write(f, i, _) => f in frames && f !in stack && i < PER_PAGE
  }

  function After(stack: seq<Frame>, op: Op): seq<Frame> {
    match op
    case Free(f) => stack + [f]
    case Alloc => if stack == [] then [] else stack[..|stack| - 1]
    case Write(_, _, _) => stack
  }

  function Result(stack: seq<Frame>, op: Op): Option<Frame> {
    if op.Alloc? && stack != [] then Some(stack[|stack| - 1]) else None
  }

  /** The stacks that a run goes through. */
  ghost predicate IsRun(stacks: seq<seq<Frame>>, frames: set<Frame>, ops: seq<Op>) {
    |stacks| == |ops| + 1 && forall n :: 0 <= n < |ops| ==> Follows(stacks, frames, ops, n)
  }

  ghost predicate Follows(stacks: seq<seq<Frame>>, frames: set<Frame>, ops: seq<Op>, n: nat)
    requires n < |ops| < |stacks|
  {
    Legal(stacks[n], frames, ops[n]) && stacks[n + 1] == After(stacks[n], ops[n])
  }

  /** Every run of the allocator gives the results of a plain stack, whatever clients write to the
      frames they hold. */
  method Run(alloc: FrameAllocator, ops: seq<Op>, ghost stacks: seq<seq<Frame>>) returns (rs: seq<Option<Frame>>)
    requires alloc.Valid() && IsRun(stacks, alloc.mem.Keys, ops) && stacks[0] == alloc.stack
    modifies alloc
    ensures alloc.Valid() && alloc.stack == stacks[|ops|]
    ensures |rs| == |ops| && forall n :: 0 <= n < |ops| ==> rs[n] == Result(stacks[n], ops[n])
  {
    rs := [];
    for n := 0 to |ops|
      invariant alloc.Valid() && alloc.stack == stacks[n] && alloc.mem.Keys == old(alloc.mem.Keys)
      invariant |rs| == n && forall i :: 0 <= i < n ==> rs[i] == Result(stacks[i], ops[i])
    {
      assert Follows(stacks, alloc.mem.Keys, ops, n);
      var r := Do(alloc, ops[n]);
      rs := rs + [r];
    }
  }

  method Do(alloc: FrameAllocator, op: Op) returns (r: Option<Frame>)
    requires alloc.Valid() && Legal(alloc.stack, alloc.mem.Keys, op)
    modifies alloc
    ensures alloc.Valid() && alloc.stack == After(old(alloc.stack), op) && alloc.mem.Keys == old(alloc.mem.Keys)
    ensures r == Result(old(alloc.stack), op)
  {
    r := None;
    match op {
      case Free(f) => alloc.FreeOne(f);
      case Alloc => r := alloc.AllocOne();
      case Write(f, i, v) => alloc.ClientWrite(f, i, v);
    }
  }

  lemma {:induction false} StaysDistinct(stacks: seq<seq<Frame>>, frames: set<Frame>, ops: seq<Op>, n: nat)
    requires IsRun(stacks, frames, ops) && Distinct(stacks[0]) && n <= |ops|
    ensures Distinct(stacks[n])
  {
    if n > 0 {
      StaysDistinct(stacks, frames, ops, n - 1);
      assert Follows(stacks, frames, ops, n - 1);
    }
  }

  /** A frame handed out at step `m` is not free again until it is freed ... */
  lemma {:induction false} HandedOutIsNotFree(stacks: seq<seq<Frame>>, frames: set<Frame>, ops: seq<Op>, m: nat, n: nat, f: Frame)
    requires IsRun(stacks, frames, ops) && Distinct(stacks[0]) && m < n <= |ops|
    requires Result(stacks[m], ops[m]) == Some(f)
    requires forall i :: m < i < n ==> ops[i] != Free(f)
    ensures f !in stacks[n]
  {
    assert Follows(stacks, frames, ops, n - 1);
    if n == m + 1 {
      StaysDistinct(stacks, frames, ops, m);
    } else {
      HandedOutIsNotFree(stacks, frames, ops, m, n - 1, f);
    }
  }

  /** ... so it is not handed out twice. */
  lemma NeverTwice(stacks: seq<seq<Frame>>, frames: set<Frame>, ops: seq<Op>, m: nat, n: nat, f: Frame)
    requires IsRun(stacks, frames, ops) && Distinct(stacks[0]) && m < n < |ops|
    requires Result(stacks[m], ops[m]) == Some(f)
    requires forall i :: m < i < n ==> ops[i] != Free(f)
    ensures Result(stacks[n], ops[n]) != Some(f)
  {
    HandedOutIsNotFree(stacks, frames, ops, m, n, f);
  }
}
