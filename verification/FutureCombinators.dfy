/** The combinators `all` and `any` over the block of `Futures`: the returned future is a future of
    that block, whose clones, drops and callbacks go on while the inputs resolve in any order, also
    during construction. That the callback of each input runs exactly once is the property of the
    input's own block.
 */
module FutureCombinators {
  import opened Basics
  import F = Futures

  type Core = F.State<nat>

  datatype Result<+S> = Ok(state: S) | Fault | Panic

  /** What can happen while and after a combinator is built; `Holder` is a step of the caller with
      the returned future or one made from it. */
  datatype Step =
    | InputResolves(i: nat)
    | Attach
    | EndLoop
    | Return
    | Holder(step: F.Step<nat>)

  datatype Phase = Looping | Looped | Returned

  /** The steps that holders of futures take; the writer is in the hands of the combinator. */
  predicate OfHolder(step: F.Step<nat>) {
    !step.Finish? && !step.AsFuture?
  }

  /** A step of a holder resolves nothing, and runs no action before that. */
  lemma HolderStep(s: Core, step: F.Step<nat>)
    requires F.Inv(s) && F.Enabled(s, step) && OfHolder(step)
    ensures var r := F.Next(s, step);
            && r.Ok? && F.Inv(r.state) && r.state.block.resolved == s.block.resolved
            && r.state.world.finished == s.world.finished
            && (!s.block.resolved ==> r.state.world.ran == s.world.ran)
  {
    F.StepKeeps(s, step);
  }

  /** Finishing runs the actions that are registered, and leaves the holders alone. */
  lemma FinishStep(s: Core, v: nat)
    requires F.Inv(s) && s.world.writer
    ensures var r := F.Next(s, F.Finish(v));
            && r.Ok? && F.Inv(r.state) && r.state.block.resolved && r.state.world.finished == Some(v)
            && r.state.world.withVal == s.world.withVal && r.state.world.withoutVal == s.world.withoutVal
            && r.state.world.known == s.world.known && r.state.world.ran == s.world.registered
            && r.state.world.registered == s.world.registered
  {
    F.FinishKeeps(s, v);
    var b1 := if s.block.valRefs != 0 then s.block.(cell := F.Held(v)) else s.block;
    F.RunActionsKeeps(F.State(b1.(resolved := true, actions := []), s.world.(finished := Some(v))), s.block.actions);
  }

  // ---- all ----

  /** `max` is the largest machine word, `total` the number of inputs the iterator will give.
      The countdown is kept in the cell of the block, which nobody reads before it is resolved.
      `fired` are the inputs whose callback ran. */
  datatype All = All(
    max: nat, total: nat, core: Core, counter: nat,
    phase: Phase, attached: nat, inputs: set<nat>, fired: set<nat>)

  function NewAll(max: nat, total: nat): All {
    All(max, total, F.NewFuture(true), max, Looping, 0, {}, {})
  }

  function WithCore(s: All, r: F.Result<Core>): Result<All> {
    match r
    case Ok(core) => Ok(s.(core := core))
    case Fault => Fault
  }

  /** Marks the block resolved and gives up the writer's reference, which must still be there. */
  function FinishAll(s: All): Result<All> {
    if !s.core.world.writer then Fault else WithCore(s, F.Next(s.core, F.Finish(s.counter)))
  }

  /** The callback on one input: the last one finishes, the others count down. */
  function FireAll(s: All, i: nat): Result<All> {
    if s.core.block.frees > 0 then Fault
    else
      var s1 := s.(fired := s.fired + {i});
      if s.counter == 1 then FinishAll(s1)
      else if s.counter == 0 then Fault
      else Ok(s1.(counter := s.counter - 1))
  }

  ghost predicate EnabledAll(s: All, step: Step) {
    match step
    case InputResolves(i) => i < s.total && i !in s.inputs
    case Attach => s.phase == Looping && s.attached < s.total
    case EndLoop => s.phase == Looping && s.attached == s.total
    case Return => s.phase == Looped
    case Holder(step) => s.phase == Returned && OfHolder(step) && F.Enabled(s.core, step)
  }

  /** The caller gets a future without the value, made from the first one, which is dropped. */
  function NextAll(s: All, step: Step): Result<All> {
    match step
    case InputResolves(i) =>
      var s1 := s.(inputs := s.inputs + {i});
      if i < s.attached then FireAll(s1, i) else Ok(s1)
    case Attach =>
      if s.attached + 1 == s.max then Panic
      else
        var s1 := s.(attached := s.attached + 1);
        if s.attached in s.inputs then FireAll(s1, s.attached) else Ok(s1)
    case EndLoop =>
      if s.core.block.frees > 0 || s.counter < s.max - s.attached || s.max < s.attached then Fault
      else
        var s1 := s.(phase := Looped, counter := s.counter - (s.max - s.attached));
        if s1.counter == 0 then FinishAll(s1) else Ok(s1)
    case Return =>
      (match F.Next(s.core, F.WithoutVal(0, 1))
       case Fault => Fault
       case Ok(core) => WithCore(s.(phase := Returned), F.Next(core, F.Drop(0))))
    case Holder(step) => WithCore(s, F.Next(s.core, step))
  }

  /** Before it is returned, the future is the only one and has no actions. */
  ghost predicate Unreturned(s: Core) {
    s.world.withVal == {0} && s.world.withoutVal == {} && s.world.known == {0} && s.world.registered == []
  }

  /** The block is as its own invariant says, the countdown is exact, and the block is resolved
      exactly when the loop is over and every input has resolved. */
  ghost predicate InvAll(s: All) {
    && F.Inv(s.core)
    && s.attached <= s.total && s.attached < s.max
    && (s.phase != Looping ==> s.attached == s.total)
    && (s.phase != Returned ==> Unreturned(s.core))
    && (forall i :: i in s.inputs ==> i < s.total)
    && (forall i :: i in s.fired <==> i in s.inputs && i < s.attached)
    && |s.fired| <= s.attached
    && Countdown(s)
  }

  ghost predicate Countdown(s: All) {
    && (s.core.block.resolved <==> s.phase != Looping && |s.fired| == s.total)
    && (!s.core.block.resolved ==>
          && s.counter == (if s.phase == Looping then s.max else s.total) - |s.fired|
          && s.core.world.ran == [])
  }

  /** The numbers below `n`. */
  function Below(n: nat): (r: set<nat>)
    ensures |r| == n && forall i: nat :: i in r <==> i < n
  {
    if n == 0 then {} else Below(n - 1) + {n - 1}
  }

  lemma SubsetSize(a: set<nat>, b: set<nat>)
    requires a <= b
    ensures |a| <= |b| && (|a| == |b| ==> a == b)
  {
    assert b == a + (b - a);
    assert |b| == |a| + |b - a|;
  }

  lemma FiredBound(fired: set<nat>, n: nat)
    requires forall i :: i in fired ==> i < n
    ensures |fired| <= n
  {
    SubsetSize(fired, Below(n));
  }

  /** As many callbacks ran as there are inputs exactly when all of them did. */
  lemma FiredAll(fired: set<nat>, n: nat)
    requires forall i :: i in fired ==> i < n
    ensures |fired| == n <==> fired == Below(n)
  {
    SubsetSize(fired, Below(n));
  }

  lemma FinishAllKeeps(s: All)
    requires F.Inv(s.core) && s.core.world.writer
    ensures FinishAll(s).Ok? && FinishAll(s).state == s.(core := FinishAll(s).state.core)
    ensures var core := FinishAll(s).state.core;
            F.Inv(core) && core.block.resolved && (Unreturned(s.core) ==> Unreturned(core))
  {
    FinishStep(s.core, s.counter);
  }

  lemma FireAllKeeps(s: All, i: nat, before: All)
    requires InvAll(before) && i < s.attached && i in s.inputs && i !in before.fired
    requires s == before.(inputs := s.inputs, attached := s.attached)
    requires s.attached <= s.total && s.attached < s.max && (s.phase != Looping ==> s.attached == s.total)
    requires forall j :: j in s.inputs ==> j < s.total
    requires forall j :: j in s.inputs && j < s.attached <==> j in before.fired || j == i
    ensures FireAll(s, i).Ok? && InvAll(FireAll(s, i).state)
  {
    var fired := before.fired + {i};
    assert |fired| == |before.fired| + 1;
    FiredBound(fired, s.attached);
    assert !s.core.block.resolved && s.core.world.writer;
    F.HolderKeepsAlive(s.core, 0);
    FinishAllKeeps(s.(fired := fired));
  }

  lemma AllStepKeeps(s: All, step: Step)
    requires InvAll(s) && EnabledAll(s, step)
    ensures NextAll(s, step).Panic? <==> step.Attach? && s.attached + 1 == s.max
    ensures !NextAll(s, step).Panic? ==> NextAll(s, step).Ok? && InvAll(NextAll(s, step).state)
  {
    match step {
      case InputResolves(i) => AllInputKeeps(s, i);
      case Attach =>
        if s.attached + 1 != s.max {
          AllAttachKeeps(s);
        }
      case EndLoop => EndAllKeeps(s);
      case Return => ReturnAllKeeps(s);
      case Holder(step) => AllHolderKeeps(s, step);
    }
  }

  lemma AllInputKeeps(s: All, i: nat)
    requires InvAll(s) && EnabledAll(s, InputResolves(i))
    ensures NextAll(s, InputResolves(i)).Ok? && InvAll(NextAll(s, InputResolves(i)).state)
  {
    if i < s.attached {
      FireAllKeeps(s.(inputs := s.inputs + {i}), i, s);
    }
  }

  lemma AllAttachKeeps(s: All)
    requires InvAll(s) && EnabledAll(s, Attach) && s.attached + 1 != s.max
    ensures NextAll(s, Attach).Ok? && InvAll(NextAll(s, Attach).state)
  {
    if s.attached in s.inputs {
      FireAllKeeps(s.(attached := s.attached + 1), s.attached, s);
    }
  }

  lemma AllHolderKeeps(s: All, step: F.Step<nat>)
    requires InvAll(s) && EnabledAll(s, Holder(step))
    ensures NextAll(s, Holder(step)).Ok? && InvAll(NextAll(s, Holder(step)).state)
  {
    HolderStep(s.core, step);
  }

  lemma EndAllKeeps(s: All)
    requires InvAll(s) && EnabledAll(s, EndLoop)
    ensures NextAll(s, EndLoop).Ok? && InvAll(NextAll(s, EndLoop).state)
  {
    F.HolderKeepsAlive(s.core, 0);
    FinishAllKeeps(s.(phase := Looped, counter := s.counter - (s.max - s.attached)));
  }

  lemma ReturnAllKeeps(s: All)
    requires InvAll(s) && EnabledAll(s, Return)
    ensures NextAll(s, Return).Ok? && InvAll(NextAll(s, Return).state)
  {
    HolderStep(s.core, F.WithoutVal(0, 1));
    HolderStep(F.Next(s.core, F.WithoutVal(0, 1)).state, F.Drop(0));
  }

  ghost predicate AllRun(states: seq<All>, steps: seq<Step>) {
    && |states| == |steps| + 1
    && states[0] == NewAll(states[0].max, states[0].total) && states[0].max > 0
    && (forall i :: 0 <= i < |steps| ==> FollowsAll(states, steps, i))
  }

  ghost predicate FollowsAll(states: seq<All>, steps: seq<Step>, i: nat)
    requires i < |steps| < |states|
  {
    EnabledAll(states[i], steps[i]) && NextAll(states[i], steps[i]) == Ok(states[i + 1])
  }

  lemma NewCoreOk()
    ensures F.Inv(F.NewFuture<nat>(true)) && Unreturned(F.NewFuture<nat>(true))
  {
    assert F.Ids([]) == [];
  }

  lemma AllFollowed(states: seq<All>, steps: seq<Step>, i: nat)
    requires i < |steps| < |states| && FollowsAll(states, steps, i) && InvAll(states[i])
    ensures InvAll(states[i + 1])
  {
    AllStepKeeps(states[i], steps[i]);
  }

  lemma {:induction false} AllRunKeeps(states: seq<All>, steps: seq<Step>, n: nat)
    requires AllRun(states, steps) && n < |states|
    ensures InvAll(states[n])
  {
    if n > 0 {
      AllRunKeeps(states, steps, n - 1);
      AllFollowed(states, steps, n - 1);
    } else {
      NewCoreOk();
    }
  }

  /** In every run, `all` is resolved exactly when its loop is over and all of its inputs have
      resolved. Until then no action registered on the returned future, or on one made from it, has
      run; from then on all of them have, in order and once each. The countdown never underflows,
      no step faults, and the block is freed when the last holder is gone. */
  lemma AllResolvesWithLast(states: seq<All>, steps: seq<Step>, n: nat)
    requires AllRun(states, steps) && n < |states|
    ensures var s := states[n];
            var b, w := s.core.block, s.core.world;
            && (b.resolved <==> s.phase != Looping && s.inputs == Below(s.total))
            && w.ran == (if b.resolved then w.registered else [])
            && (b.frees == 1 <==> w.withVal == {} && w.withoutVal == {} && b.resolved) && b.frees <= 1
            && (forall step :: EnabledAll(s, step) ==> !NextAll(s, step).Fault?)
  {
    AllRunKeeps(states, steps, n);
    var s := states[n];
    FiredAll(s.fired, s.attached);
    if s.phase != Looping {
      assert s.fired == s.inputs;
    }
    RanAll(s.core);
    forall step | EnabledAll(s, step)
      ensures !NextAll(s, step).Fault?
    {
      AllStepKeeps(s, step);
    }
  }

  lemma RanAll(s: Core)
    requires F.Inv(s)
    ensures s.block.resolved ==> s.world.ran == s.world.registered
    ensures s.block.frees <= 1 && (s.block.frees == 1 <==> s.world.withVal == {} && s.world.withoutVal == {} && s.block.resolved)
  {
    assert s.block.resolved ==> F.Ids(s.block.actions) == [];
  }

  // ---- any ----

  /** `fired` lists the inputs whose callbacks ran, in that order. Every attached callback and the
      loop hold a reference to the block; the first callback takes the part of the writer. */
  datatype Any = Any(total: nat, core: Core, phase: Phase, attached: nat, inputs: set<nat>, fired: seq<nat>)

  function NewAny(total: nat): Any {
    Any(total, F.NewFuture(true), Looping, 0, {}, [])
  }

  function WithCoreAny(s: Any, r: F.Result<Core>): Result<Any> {
    match r
    case Ok(core) => Ok(s.(core := core))
    case Fault => Fault
  }

  function WithRefs(s: Any, n: nat): Any {
    s.(core := s.core.(block := s.core.block.(waitRefs := n)))
  }

  /** The callback on one input: the first one writes its index; each gives up its reference. */
  function FireAny(s: Any, i: nat): Result<Any> {
    if s.core.block.frees > 0 then Fault
    else
      var s1 := s.(fired := s.fired + [i]);
      if !s.core.block.resolved then WithCoreAny(s1, F.Next(s.core, F.Finish(i)))
      else
        match F.DecWaitRef(s.core.block)
        case Fault => Fault
        case Ok(b) => Ok(s1.(core := s.core.(block := b)))
  }

  ghost predicate EnabledAny(s: Any, step: Step) {
    match step
    case InputResolves(i) => i < s.total && i !in s.inputs
    case Attach => s.phase == Looping && s.attached < s.total
    case EndLoop => s.phase == Looping && s.attached == s.total
    case Return => s.phase == Looped
    case Holder(step) => s.phase == Returned && OfHolder(step) && F.Enabled(s.core, step)
  }

  /** Without inputs there is an error instead of a future, which is dropped. */
  function NextAny(s: Any, step: Step): Result<Any> {
    match step
    case InputResolves(i) =>
      var s1 := s.(inputs := s.inputs + {i});
      if i < s.attached then FireAny(s1, i) else Ok(s1)
    case Attach =>
      if s.core.block.frees > 0 then Fault
      else
        var s1 := WithRefs(s.(attached := s.attached + 1), s.core.block.waitRefs + 1);
        if s.attached in s.inputs then FireAny(s1, s.attached) else Ok(s1)
    case EndLoop =>
      if s.core.block.frees > 0 || s.core.block.waitRefs == 0 then Fault
      else Ok(WithRefs(s.(phase := Looped), s.core.block.waitRefs - 1))
    case Return =>
      if s.total > 0 then Ok(s.(phase := Returned))
      else WithCoreAny(s.(phase := Returned), F.Next(s.core, F.Drop(0)))
    case Holder(step) => WithCoreAny(s, F.Next(s.core, step))
  }

  // ---- the block with references that `Futures` does not know ----

  function AddRefs(s: Core, e: nat): Core {
    if e == 0 then s else s.(block := s.block.(waitRefs := s.block.waitRefs + e, frees := 0))
  }

  /** The block without `e` of its references. */
  function Base(s: Core, e: nat): Core
    requires s.block.waitRefs >= e
  {
    s.(block := s.block.(waitRefs := s.block.waitRefs - e, frees := if s.block.waitRefs == e then 1 else 0))
  }

  /** The block is a future's with `e` references more. */
  ghost predicate Over(s: Core, e: int) {
    forall n: nat {:trigger Look(n)} :: Look(n) ==>
      && 0 <= e <= s.block.waitRefs && F.Inv(Base(s, e))
      && s.block.frees == (if s.block.waitRefs == 0 then 1 else 0)
  }

  lemma OverIs(s: Core, base: Core, e: nat)
    requires F.Inv(base) && s == AddRefs(base, e)
    ensures Over(s, e) && e <= s.block.waitRefs && Base(s, e) == base
  {
  }

  lemma BaseIs(s: Core, e: int)
    requires Over(s, e)
    ensures 0 <= e <= s.block.waitRefs && F.Inv(Base(s, e)) && s == AddRefs(Base(s, e), e)
    ensures s.block.frees == (if s.block.waitRefs == 0 then 1 else 0)
  {
    assert Look(0);
  }

  /** The steps of holders go on as if the other references were not there ... */
  lemma HolderOver(s: Core, e: nat, step: F.Step<nat>)
    requires Over(s, e) && F.Enabled(s, step) && OfHolder(step)
    ensures var r := F.Next(s, step);
            && r.Ok? && Over(r.state, e) && r.state.block.resolved == s.block.resolved
            && r.state.world.finished == s.world.finished
            && (!s.block.resolved ==> r.state.world.ran == s.world.ran)
  {
    BaseIs(s, e);
    var base := Base(s, e);
    HolderStep(base, step);
    HolderAdds(base, e, step);
    OverIs(F.Next(s, step).state, F.Next(base, step).state, e);
  }

  lemma HolderAdds(s: Core, e: nat, step: F.Step<nat>)
    requires F.Inv(s) && F.Enabled(s, step) && OfHolder(step) && F.Next(s, step).Ok?
    ensures F.Next(AddRefs(s, e), step) == F.Result<Core>.Ok(AddRefs(F.Next(s, step).state, e))
  {
    match step {
      case Clone(h, h') => F.HolderKeepsAlive(s, h);
      case Drop(h) => DropAdds(s, e, h);
      case WithoutVal(h, h') => F.HolderKeepsAlive(s, h);
      case TryResolve(h) =>
        F.HolderKeepsAlive(s, h);
        if s.block.resolved {
          ResolveAdds(s, e, h);
        }
      case WhenResolved(h, a) => WhenResolvedAdds(s, e, h, a);
    }
  }

  lemma DropAdds(s: Core, e: nat, h: nat)
    requires F.Inv(s) && F.Enabled(s, F.Drop(h)) && F.Next(s, F.Drop(h)).Ok?
    ensures F.Next(AddRefs(s, e), F.Drop(h)) == F.Result<Core>.Ok(AddRefs(F.Next(s, F.Drop(h)).state, e))
  {
    F.HolderKeepsAlive(s, h);
  }

  lemma ResolveAdds(s: Core, e: nat, h: nat)
    requires F.Inv(s) && s.block.resolved && (h in s.world.withVal || h in s.world.withoutVal)
    requires F.Resolve(s, h, h in s.world.withVal).Ok?
    ensures F.Resolve(AddRefs(s, e), h, h in s.world.withVal) == F.Result<Core>.Ok(AddRefs(F.Resolve(s, h, h in s.world.withVal).state, e))
  {
    F.HolderKeepsAlive(s, h);
  }

  lemma WhenResolvedAdds(s: Core, e: nat, h: nat, a: nat)
    requires F.Inv(s) && F.Enabled(s, F.WhenResolved(h, a)) && F.Next(s, F.WhenResolved(h, a)).Ok?
    ensures F.Next(AddRefs(s, e), F.WhenResolved(h, a)) == F.Result<Core>.Ok(AddRefs(F.Next(s, F.WhenResolved(h, a)).state, e))
  {
    F.HolderKeepsAlive(s, h);
    if s.block.resolved {
      ResolveAdds(s, e, h);
    }
  }

  /** ... and so does finishing. */
  lemma FinishOver(s: Core, e: nat, v: nat)
    requires Over(s, e) && s.world.writer
    ensures var r := F.Next(s, F.Finish(v));
            && r.Ok? && Over(r.state, e) && r.state.block.resolved && r.state.world.finished == Some(v)
            && r.state.world.withVal == s.world.withVal && r.state.world.withoutVal == s.world.withoutVal
            && r.state.world.known == s.world.known && r.state.world.registered == s.world.registered
  {
    BaseIs(s, e);
    var base := Base(s, e);
    FinishStep(base, v);
    FinishAdds(base, e, v);
    OverIs(F.Next(s, F.Finish(v)).state, F.Next(base, F.Finish(v)).state, e);
  }

  lemma {:induction false} RunActionsAdds(s: Core, e: nat, todo: seq<F.Action>)
    requires s.block.frees == 0 && F.RunActions(s, todo).Ok?
    ensures F.RunActions(s, todo).state.block.frees == 0 && F.RunActions(s, todo).state.block.waitRefs == s.block.waitRefs
    ensures F.RunActions(AddRefs(s, e), todo) == F.Result<Core>.Ok(AddRefs(F.RunActions(s, todo).state, e))
    decreases |todo|
  {
    if todo != [] {
      var a := todo[0];
      var w := s.world.(ran := s.world.ran + [a.id]);
      if a.takesVal {
        var r := F.TakeVal(s.block, s.world.cloneable).state;
        RunActionsAdds(F.State(r.0, w.(delivered := w.delivered + [r.1])), e, todo[1..]);
      } else {
        RunActionsAdds(s.(world := w), e, todo[1..]);
      }
    }
  }

  lemma FinishAdds(s: Core, e: nat, v: nat)
    requires F.Inv(s) && s.world.writer && F.Next(s, F.Finish(v)).Ok?
    ensures F.Next(AddRefs(s, e), F.Finish(v)) == F.Result<Core>.Ok(AddRefs(F.Next(s, F.Finish(v)).state, e))
  {
    F.HolderKeepsAlive(s, 0);
    var b1 := if s.block.valRefs != 0 then s.block.(cell := F.Held(v)) else s.block;
    RunActionsAdds(F.State(b1.(resolved := true, actions := []), s.world.(finished := Some(v))), e, s.block.actions);
  }

  // ---- what the steps of `any` keep ----

  /** The references of the loop and of the callbacks that have not run, but for the one that will
      give up the writer's. */
  function Extra(s: Any): int {
    (if s.phase == Looping then 1 else 0) + (s.attached - |s.fired|) - (if s.core.block.resolved then 0 else 1)
  }

  ghost predicate InvAny(s: Any) {
    && s.attached <= s.total && |s.fired| <= s.attached
    && (s.phase != Looping ==> s.attached == s.total)
    && Fires(s.total, s.attached, s.inputs, s.fired)
    && InvCore(s)
  }

  /** The callbacks that ran are those attached to inputs that have resolved, once each. */
  ghost predicate Fires(total: nat, attached: nat, inputs: set<nat>, fired: seq<nat>) {
    forall n: nat {:trigger Look(n)} :: Look(n) ==>
      && (forall i :: i in inputs ==> i < total)
      && (forall i :: i in fired <==> i in inputs && i < attached)
      && Distinct(fired)
  }

  lemma FiresInput(total: nat, attached: nat, inputs: set<nat>, fired: seq<nat>, i: nat)
    requires Fires(total, attached, inputs, fired) && i < total && i !in inputs
    ensures Fires(total, attached, inputs + {i}, if i < attached then fired + [i] else fired)
    ensures i < attached ==> |fired| < attached
  {
    assert Look(0);
    if i < attached {
      OneMoreFired(fired, i, attached);
    }
  }

  lemma FiresAttach(total: nat, attached: nat, inputs: set<nat>, fired: seq<nat>)
    requires Fires(total, attached, inputs, fired) && attached < total
    ensures Fires(total, attached + 1, inputs, if attached in inputs then fired + [attached] else fired)
  {
    assert Look(0);
    if attached in inputs {
      OneMoreFired(fired, attached, attached + 1);
    }
  }

  /** The block is freed with the last of loop, callbacks and holders, and carries the index that
      fired first. */
  ghost predicate InvCore(s: Any) {
    && s.core.block.resolved == (s.fired != [])
    && (s.fired != [] ==> s.core.world.finished == Some(s.fired[0]))
    && (s.fired == [] ==> s.core.world.ran == [])
    && (s.phase != Returned ==> Unreturned(s.core))
    && (if s.total == 0 && s.phase != Looping then NoInputs(s) else Over(s.core, Extra(s)))
  }

  /** The block when there was no input: only the future is left, and then nothing. */
  ghost predicate NoInputs(s: Any) {
    var b, w := s.core.block, s.core.world;
    && !b.resolved && w.withoutVal == {} && w.registered == [] && w.delivered == []
    && (if s.phase == Looped then b.waitRefs == 1 && b.valRefs == 1 && b.frees == 0
        else b.waitRefs == 0 && b.frees == 1 && w.withVal == {})
  }

  lemma {:induction false} DistinctBound(xs: seq<nat>, n: nat)
    requires forall i :: 0 <= i < |xs| ==> xs[i] < n
    requires forall i, j :: 0 <= i < j < |xs| ==> xs[i] != xs[j]
    ensures |xs| <= n
  {
    var elems := set i | 0 <= i < |xs| :: xs[i];
    DistinctSize(xs);
    FiredBound(elems, n);
  }

  lemma {:induction false} DistinctSize(xs: seq<nat>)
    requires forall i, j :: 0 <= i < j < |xs| ==> xs[i] != xs[j]
    ensures |set i | 0 <= i < |xs| :: xs[i]| == |xs|
  {
    if xs != [] {
      var ys := xs[..|xs| - 1];
      var a, b := (set i | 0 <= i < |xs| :: xs[i]), (set i | 0 <= i < |ys| :: ys[i]);
      DistinctSize(ys);
      assert a == b + {xs[|xs| - 1]};
    }
  }

  /** The list of callbacks with one more, which still holds its reference. */
  lemma OneMoreFired(fired: seq<nat>, i: nat, n: nat)
    requires i < n && i !in fired && (forall j :: j in fired ==> j < n) && Distinct(fired)
    ensures |fired + [i]| <= n && (forall j :: j in fired + [i] <==> j in fired || j == i) && Distinct(fired + [i])
  {
    var more := fired + [i];
    forall j | 0 <= j < |more|
      ensures more[j] < n
    {
      assert more[j] in fired || more[j] == i;
    }
    DistinctBound(more, n);
  }

  /** One reference less. */
  lemma DropExtra(s: Core, e: nat)
    requires Over(s, e) && e > 0
    ensures F.DecWaitRef(s.block).Ok? && Over(s.(block := F.DecWaitRef(s.block).state), e - 1)
    ensures F.DecWaitRef(s.block).state.resolved == s.block.resolved
  {
    BaseIs(s, e);
    var b := F.DecWaitRef(s.block).state;
    OverIs(s.(block := b), Base(s, e), e - 1);
  }

  lemma FireCore(s: Any, i: nat)
    requires s.core.block.resolved == (s.fired != []) && (s.fired != [] ==> s.core.world.finished == Some(s.fired[0]))
    requires (s.phase != Returned ==> Unreturned(s.core)) && |s.fired| < s.attached && Over(s.core, Extra(s)) && s.total > 0
    ensures FireAny(s, i).Ok? && FireAny(s, i).state == s.(fired := s.fired + [i], core := FireAny(s, i).state.core)
    ensures InvCore(FireAny(s, i).state)
  {
    BaseIs(s.core, Extra(s));
    if s.core.block.resolved {
      DropExtra(s.core, Extra(s));
    } else {
      assert Base(s.core, Extra(s)).world.writer;
      F.HolderKeepsAlive(Base(s.core, Extra(s)), 0);
      FinishOver(s.core, Extra(s), i);
    }
  }

  lemma AnyStepKeeps(s: Any, step: Step)
    requires InvAny(s) && EnabledAny(s, step)
    ensures NextAny(s, step).Ok? && InvAny(NextAny(s, step).state)
  {
    match step {
      case InputResolves(i) => AnyInputKeeps(s, i);
      case Attach => AnyAttachKeeps(s);
      case EndLoop => AnyEndKeeps(s);
      case Return => AnyReturnKeeps(s);
      case Holder(step) => AnyHolderKeeps(s, step);
    }
  }

  lemma AnyInputKeeps(s: Any, i: nat)
    requires InvAny(s) && EnabledAny(s, InputResolves(i))
    ensures NextAny(s, InputResolves(i)).Ok? && InvAny(NextAny(s, InputResolves(i)).state)
  {
    FiresInput(s.total, s.attached, s.inputs, s.fired, i);
    if i < s.attached {
      FireCore(s.(inputs := s.inputs + {i}), i);
    }
  }

  /** The new callback holds a reference. */
  lemma AttachCore(s: Any)
    requires s.phase == Looping && s.attached < s.total && |s.fired| <= s.attached && InvCore(s)
    ensures s.core.block.frees == 0
    ensures var s1 := WithRefs(s.(attached := s.attached + 1), s.core.block.waitRefs + 1); InvCore(s1) && Over(s1.core, Extra(s1))
  {
    var s1 := WithRefs(s.(attached := s.attached + 1), s.core.block.waitRefs + 1);
    BaseIs(s.core, Extra(s));
    F.HolderKeepsAlive(Base(s.core, Extra(s)), 0);
    OverIs(s1.core, Base(s.core, Extra(s)), Extra(s1));
  }

  lemma AnyAttachKeeps(s: Any)
    requires InvAny(s) && EnabledAny(s, Attach)
    ensures NextAny(s, Attach).Ok? && InvAny(NextAny(s, Attach).state)
  {
    FiresAttach(s.total, s.attached, s.inputs, s.fired);
    AttachCore(s);
    if s.attached in s.inputs {
      FireCore(WithRefs(s.(attached := s.attached + 1), s.core.block.waitRefs + 1), s.attached);
    }
  }

  lemma AnyEndKeeps(s: Any)
    requires InvAny(s) && EnabledAny(s, EndLoop)
    ensures NextAny(s, EndLoop).Ok? && InvAny(NextAny(s, EndLoop).state)
  {
    EndCore(s);
  }

  /** The loop gives up its reference. */
  lemma EndCore(s: Any)
    requires s.phase == Looping && s.attached == s.total && |s.fired| <= s.attached && InvCore(s)
    ensures s.core.block.frees == 0 && s.core.block.waitRefs > 0
    ensures InvCore(WithRefs(s.(phase := Looped), s.core.block.waitRefs - 1))
  {
    BaseIs(s.core, Extra(s));
    var base := Base(s.core, Extra(s));
    F.HolderKeepsAlive(base, 0);
    if s.total > 0 {
      var s1 := WithRefs(s.(phase := Looped), s.core.block.waitRefs - 1);
      OverIs(s1.core, base, Extra(s1));
    }
  }

  lemma AnyReturnKeeps(s: Any)
    requires InvAny(s) && EnabledAny(s, Return)
    ensures NextAny(s, Return).Ok? && InvAny(NextAny(s, Return).state)
  {
  }

  lemma AnyHolderKeeps(s: Any, step: F.Step<nat>)
    requires InvAny(s) && EnabledAny(s, Holder(step))
    ensures NextAny(s, Holder(step)).Ok? && InvAny(NextAny(s, Holder(step)).state)
  {
    if s.total > 0 {
      BaseIs(s.core, Extra(s));
      HolderOver(s.core, Extra(s), step);
      HeldCore(s, F.Next(s.core, step).state);
    }
  }

  lemma HeldCore(s: Any, core: Core)
    requires InvCore(s) && s.phase == Returned && s.total > 0 && Over(core, Extra(s))
    requires core.block.resolved == s.core.block.resolved && core.world.finished == s.core.world.finished
    requires !s.core.block.resolved ==> core.world.ran == s.core.world.ran
    ensures InvCore(s.(core := core))
  {
  }

  ghost predicate AnyRun(states: seq<Any>, steps: seq<Step>) {
    && |states| == |steps| + 1
    && states[0] == NewAny(states[0].total)
    && (forall i :: 0 <= i < |steps| ==> FollowsAny(states, steps, i))
  }

  ghost predicate FollowsAny(states: seq<Any>, steps: seq<Step>, i: nat)
    requires i < |steps| < |states|
  {
    EnabledAny(states[i], steps[i]) && NextAny(states[i], steps[i]) == Ok(states[i + 1])
  }

  lemma NewAnyOk(total: nat)
    ensures InvAny(NewAny(total))
  {
    NewCoreOk();
    OverIs(F.NewFuture(true), F.NewFuture(true), 0);
  }

  lemma AnyFollowed(states: seq<Any>, steps: seq<Step>, i: nat)
    requires i < |steps| < |states| && FollowsAny(states, steps, i) && InvAny(states[i])
    ensures InvAny(states[i + 1])
  {
    AnyStepKeeps(states[i], steps[i]);
  }

  lemma {:induction false} AnyRunKeeps(states: seq<Any>, steps: seq<Step>, n: nat)
    requires AnyRun(states, steps) && n < |states|
    ensures InvAny(states[n])
  {
    if n > 0 {
      AnyRunKeeps(states, steps, n - 1);
      AnyFollowed(states, steps, n - 1);
    } else {
      NewAnyOk(states[0].total);
    }
  }

  /** What comes of that: values and actions follow the input that fired first. */
  ghost predicate FirstKept(s: Any) {
    var b, w := s.core.block, s.core.world;
    && (b.resolved <==> s.fired != [])
    && (b.resolved ==> w.finished == Some(s.fired[0]))
    && (forall i :: 0 <= i < |w.delivered| ==> s.fired != [] && w.delivered[i] == s.fired[0])
    && w.ran == (if b.resolved then w.registered else [])
    && b.frees <= 1
    && (b.frees == 1 <==> s.phase != Looping && |s.fired| == s.total && w.withVal == {} && w.withoutVal == {})
  }

  lemma AnyReads(s: Any)
    requires InvAny(s)
    ensures FirstKept(s)
  {
    if s.total > 0 || s.phase == Looping {
      BaseIs(s.core, Extra(s));
      RanAll(Base(s.core, Extra(s)));
    }
  }

  /** In every run, `any` is resolved once an input has fired, with the index of the one that fired
      first, and every value that leaves it is that index. Before that no action registered on the
      returned future or its clones has run, after that all of them have, in order and once each.
      No step faults, and the block is freed once, when loop, callbacks and holders are gone. */
  lemma AnyKeepsFirst(states: seq<Any>, steps: seq<Step>, n: nat)
    requires AnyRun(states, steps) && n < |states|
    ensures FirstKept(states[n])
    ensures forall step :: EnabledAny(states[n], step) ==> NextAny(states[n], step).Ok?
  {
    AnyRunKeeps(states, steps, n);
    AnyReads(states[n]);
    forall step | EnabledAny(states[n], step)
      ensures NextAny(states[n], step).Ok?
    {
      AnyStepKeeps(states[n], step);
    }
  }

  /** An input that has not resolved. */
  function Unresolved(inputs: set<nat>, total: nat): (i: nat)
    requires |inputs| < total
    ensures i < total && i !in inputs
  {
    FewerLeaveOne(inputs, total);
    FirstOut(inputs, total, 0)
  }

  function FirstOut(inputs: set<nat>, total: nat, from: nat): (i: nat)
    requires exists j :: from <= j < total && j !in inputs
    ensures from <= i < total && i !in inputs
    decreases total - from
  {
    if from !in inputs && from < total then from else FirstOut(inputs, total, from + 1)
  }

  lemma FewerLeaveOne(inputs: set<nat>, total: nat)
    requires |inputs| < total
    ensures exists j :: 0 <= j < total && j !in inputs
  {
    if forall j: nat :: j < total ==> j in inputs {
      SubsetSize(Below(total), inputs);
    }
  }

  lemma OneMore(inputs: set<nat>, i: nat)
    requires i !in inputs
    ensures |inputs + {i}| == |inputs| + 1
  {
  }

  // ---- `all` comes to an end ----

  ghost predicate AllPath(states: seq<All>, steps: seq<Step>) {
    && |states| == |steps| + 1
    && (forall i :: 0 <= i < |steps| ==> FollowsAll(states, steps, i))
  }

  lemma AllPrepend(s: All, step: Step, states: seq<All>, steps: seq<Step>)
    requires AllPath(states, steps) && EnabledAll(s, step) && NextAll(s, step) == Ok(states[0])
    ensures AllPath([s] + states, [step] + steps)
  {
    var all, alls := [s] + states, [step] + steps;
    forall i | 0 <= i < |alls|
      ensures FollowsAll(all, alls, i)
    {
      if i > 0 {
        assert FollowsAll(states, steps, i - 1);
      }
    }
  }

  /** What is left to do. */
  function AllLeft(s: All): nat
    requires s.attached <= s.total && |s.inputs| <= s.total
  {
    s.total - s.attached + s.total - |s.inputs| + match s.phase case Looping => 2 case Looped => 1 case Returned => 0
  }

  /** A step that is possible and brings the end nearer, unless all is done. */
  function AllChoice(s: All): (step: Step)
    requires s.phase != Returned || |s.inputs| < s.total
    requires forall i :: i in s.inputs ==> i < s.total
    ensures step.InputResolves? ==> step.i < s.total && step.i !in s.inputs
  {
    match s.phase
    case Looping => if s.attached < s.total then Attach else EndLoop
    case Looped => Return
    case Returned => InputResolves(Unresolved(s.inputs, s.total))
  }

  lemma AllNearer(s: All, step: Step)
    requires InvAll(s) && AllInputs(s) && |s.inputs| <= s.total && (s.phase != Returned || |s.inputs| < s.total) && step == AllChoice(s) && s.total < s.max
    ensures EnabledAll(s, step) && NextAll(s, step).Ok? && InvAll(NextAll(s, step).state)
    ensures var s' := NextAll(s, step).state;
            s'.total == s.total && s'.attached <= s'.total && |s'.inputs| <= s'.total && AllInputs(s') && AllLeft(s') < AllLeft(s) && s'.max == s.max
  {
    AllStepKeeps(s, step);
    if step.InputResolves? {
      OneMore(s.inputs, step.i);
    }
  }

  ghost predicate AllInputs(s: All) {
    forall i :: i in s.inputs ==> i < s.total
  }

  // ---- `any` comes to an end ----

  ghost predicate AnyPath(states: seq<Any>, steps: seq<Step>) {
    && |states| == |steps| + 1
    && (forall i :: 0 <= i < |steps| ==> FollowsAny(states, steps, i))
  }

  lemma AnyPrepend(s: Any, step: Step, states: seq<Any>, steps: seq<Step>)
    requires AnyPath(states, steps) && EnabledAny(s, step) && NextAny(s, step) == Ok(states[0])
    ensures AnyPath([s] + states, [step] + steps)
  {
    var all, alls := [s] + states, [step] + steps;
    forall i | 0 <= i < |alls|
      ensures FollowsAny(all, alls, i)
    {
      if i > 0 {
        assert FollowsAny(states, steps, i - 1);
      }
    }
  }

  /** What is left to do. */
  function AnyLeft(s: Any): nat
    requires s.attached <= s.total && |s.inputs| <= s.total
  {
    s.total - s.attached + s.total - |s.inputs| + match s.phase case Looping => 2 case Looped => 1 case Returned => 0
  }

  /** A step that is possible and brings the end nearer, unless all is done. */
  function AnyChoice(s: Any): (step: Step)
    requires s.phase != Returned || |s.inputs| < s.total
    requires forall i :: i in s.inputs ==> i < s.total
    ensures step.InputResolves? ==> step.i < s.total && step.i !in s.inputs
  {
    match s.phase
    case Looping => if s.attached < s.total then Attach else EndLoop
    case Looped => Return
    case Returned => InputResolves(Unresolved(s.inputs, s.total))
  }

  lemma AnyNearer(s: Any, step: Step)
    requires InvAny(s) && AnyInputs(s) && |s.inputs| <= s.total && (s.phase != Returned || |s.inputs| < s.total) && step == AnyChoice(s)
    ensures EnabledAny(s, step) && NextAny(s, step).Ok? && InvAny(NextAny(s, step).state)
    ensures var s' := NextAny(s, step).state;
            s'.total == s.total && s'.attached <= s'.total && |s'.inputs| <= s'.total && AnyInputs(s') && AnyLeft(s') < AnyLeft(s)
  {
    AnyStepKeeps(s, step);
    if step.InputResolves? {
      OneMore(s.inputs, step.i);
    }
  }

  ghost predicate AnyInputs(s: Any) {
    forall i :: i in s.inputs ==> i < s.total
  }

  /** From every state of a run of `all` its loop, its return and its inputs can come to an end, and
      then the future is resolved. */
  lemma {:induction false} AllCompletes(s: All) returns (states: seq<All>, steps: seq<Step>)
    requires InvAll(s) && AllInputs(s) && |s.inputs| <= s.total < s.max
    ensures AllPath(states, steps) && states[0] == s
    ensures var last := states[|steps|]; last.phase == Returned && last.inputs == Below(s.total) && last.core.block.resolved
    decreases AllLeft(s)
  {
    if s.phase == Returned && |s.inputs| == s.total {
      states, steps := [s], [];
      FiredAll(s.inputs, s.total);
      assert forall i :: i in s.fired <==> i in s.inputs;
      assert s.fired == s.inputs;
    } else {
      var step := AllChoice(s);
      AllNearer(s, step);
      states, steps := AllCompletes(NextAll(s, step).state);
      AllPrepend(s, step, states, steps);
      states, steps := [s] + states, [step] + steps;
    }
  }

  /** The same of `any`, which is resolved then unless there were no inputs. */
  lemma {:induction false} AnyCompletes(s: Any) returns (states: seq<Any>, steps: seq<Step>)
    requires InvAny(s) && AnyInputs(s) && |s.inputs| <= s.total
    ensures AnyPath(states, steps) && states[0] == s
    ensures var last := states[|steps|];
            last.phase == Returned && last.inputs == Below(s.total) && (last.core.block.resolved <==> s.total > 0)
    decreases AnyLeft(s)
  {
    if s.phase == Returned && |s.inputs| == s.total {
      states, steps := [s], [];
      FiredAll(s.inputs, s.total);
      AnyFired(s);
    } else {
      var step := AnyChoice(s);
      AnyNearer(s, step);
      states, steps := AnyCompletes(NextAny(s, step).state);
      AnyPrepend(s, step, states, steps);
      states, steps := [s] + states, [step] + steps;
    }
  }

  lemma AnyFired(s: Any)
    requires InvAny(s) && s.phase == Returned && s.inputs == Below(s.total)
    ensures s.core.block.resolved <==> s.total > 0
  {
    assert Look(0);
    if s.total > 0 {
      assert 0 in s.inputs && 0 in s.fired;
    }
  }

  // ---- what is returned ----

  /** `all` returns a future without a value, or one that is resolved already. */
  lemma ReturnsPlain(s: All)
    requires InvAll(s) && s.phase == Looped
    ensures var r := NextAll(s, Return);
            && r.Ok? && r.state.core.world.withVal == {}
            && r.state.core.world.withoutVal == (if s.core.block.resolved then {} else {1})
            && r.state.core.block.resolved == s.core.block.resolved
  {
    ReturnAllKeeps(s);
    F.StepDoes(s.core, F.WithoutVal(0, 1));
    HolderStep(s.core, F.WithoutVal(0, 1));
    var c := F.Next(s.core, F.WithoutVal(0, 1)).state;
    F.StepDoes(c, F.Drop(0));
    HolderStep(c, F.Drop(0));
  }

  /** `any` returns the future that carries the value, or none without inputs. */
  lemma ReturnsFirst(s: Any)
    requires InvAny(s) && s.phase == Looped
    ensures var r := NextAny(s, Return);
            r.Ok? && r.state.core.world.withVal == (if s.total > 0 then {0} else {}) && r.state.core.world.withoutVal == {}
  {
    AnyReturnKeeps(s);
  }
}
