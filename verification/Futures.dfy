/** The block shared by a future, its clones and its writer: two reference counts, a value cell
    and deferred actions. Every operation runs under the block's lock, so a run is a sequence of
    steps; a step that the code would perform on freed memory, or at which one of its assertions
    would fail, is a fault.
 */
module Futures {
  import opened Basics

  /** The value cell: not written, holding the value, or read out by move. */
  datatype Cell<+V> = Empty | Held(value: V) | Gone

  /** A callback waiting for resolution; `takesVal` when it was registered on a future with a value. */
  datatype Action = Action(id: nat, takesVal: bool)

  datatype Block<V> = Block(
    waitRefs: nat,
    valRefs: nat,
    resolved: bool,
    actions: seq<Action>,
    cell: Cell<V>,
    frees: nat)

  /** Everything outside the block: who holds a reference to it, and what has been observed. */
  datatype World<V> = World(
    cloneable: bool,
    writer: bool,
    withVal: set<nat>,
    withoutVal: set<nat>,
    known: set<nat>,
    finished: Option<V>,
    delivered: seq<V>,
    registered: seq<nat>,
    ran: seq<nat>)

  datatype State<V> = State(block: Block<V>, world: World<V>)

  datatype Result<+S> = Ok(state: S) | Fault

  datatype Step<V> =
    | Clone(h: nat, h': nat)
    | Drop(h: nat)
    | WithoutVal(h: nat, h': nat)
    | TryResolve(h: nat)
    | WhenResolved(h: nat, action: nat)
    | AsFuture(h': nat)
    | Finish(v: V)

  // ---- the operations of the code on the block ----

  function TakeVal<V>(b: Block<V>, cloneable: bool): Result<(Block<V>, V)> {
    if b.frees > 0 || b.valRefs == 0 || !b.resolved || !b.cell.Held? then Fault
    else if b.valRefs == 1 then Ok((b.(valRefs := 0, cell := Gone), b.cell.value))
    else if !cloneable then Fault
    else Ok((b.(valRefs := b.valRefs - 1), b.cell.value))
  }

  function DecValRef<V>(b: Block<V>): Result<Block<V>> {
    if b.frees > 0 || b.valRefs == 0 then Fault
    else if b.resolved && b.valRefs == 1 then
      if b.cell.Held? then Ok(b.(valRefs := 0, cell := Gone)) else Fault
    else Ok(b.(valRefs := b.valRefs - 1))
  }

  function DecWaitRef<V>(b: Block<V>): Result<Block<V>> {
    if b.frees > 0 || b.waitRefs == 0 then Fault
    else if b.waitRefs == 1 then Ok(b.(waitRefs := 0, frees := b.frees + 1))
    else Ok(b.(waitRefs := b.waitRefs - 1))
  }

  /** The pending actions, run in order when the block is resolved. */
  function RunActions<V>(s: State<V>, todo: seq<Action>): Result<State<V>>
    decreases |todo|
  {
    if todo == [] then Ok(s)
    else
      var a := todo[0];
      if a.takesVal then
        match TakeVal(s.block, s.world.cloneable)
        case Fault => Fault
        case Ok((b, v)) =>
          RunActions(State(b, s.world.(ran := s.world.ran + [a.id], delivered := s.world.delivered + [v])), todo[1..])
      else
        RunActions(s.(world := s.world.(ran := s.world.ran + [a.id])), todo[1..])
  }

  /** Marks the block resolved, runs its actions and gives up the writer's reference. */
  function FinishInternal<V>(s: State<V>): Result<State<V>> {
    if s.block.frees > 0 then Fault
    else
      var todo := s.block.actions;
      match RunActions(s.(block := s.block.(resolved := true, actions := [])), todo)
      case Fault => Fault
      case Ok(s') =>
        match DecWaitRef(s'.block)
        case Fault => Fault
        case Ok(b) => Ok(State(b, s'.world.(writer := false)))
  }

  /** The attempt to resolve a future of which `val` says whether it carries the value. */
  function Resolve<V>(s: State<V>, h: nat, val: bool): Result<State<V>> {
    var w := s.world.(withVal := s.world.withVal - {h}, withoutVal := s.world.withoutVal - {h});
    if val then
      match TakeVal(s.block, s.world.cloneable)
      case Fault => Fault
      case Ok((b, v)) =>
        match DecWaitRef(b)
        case Fault => Fault
        case Ok(b') => Ok(State(b', w.(delivered := w.delivered + [v])))
    else
      match DecWaitRef(s.block)
      case Fault => Fault
      case Ok(b) => Ok(State(b, w))
  }

  /** Whether a step is one that the holders of futures and the writer can take. */
  ghost predicate Enabled<V>(s: State<V>, step: Step<V>) {
    var w := s.world;
    match step
    case Clone(h, h') => ((w.cloneable && h in w.withVal) || h in w.withoutVal) && h' !in w.known
    case Drop(h) => h in w.withVal || h in w.withoutVal
    case WithoutVal(h, h') => (h in w.withVal || h in w.withoutVal) && h' !in w.known
    case TryResolve(h) => h in w.withVal || h in w.withoutVal
    case WhenResolved(h, a) => (h in w.withVal || h in w.withoutVal) && a !in w.registered
    case AsFuture(h') => w.cloneable && w.writer && h' !in w.known
    case Finish(v) => w.writer
  }

  function Next<V>(s: State<V>, step: Step<V>): Result<State<V>> {
    var b, w := s.block, s.world;
    match step
    case Clone(h, h') =>
      if b.frees > 0 then Fault
      else if b.resolved then
        if h !in w.withVal then Ok(s)
        else if !b.cell.Held? then Fault
        else Ok(s.(world := w.(delivered := w.delivered + [b.cell.value])))
      else if h in w.withVal then
        Ok(State(b.(waitRefs := b.waitRefs + 1, valRefs := b.valRefs + 1),
                 w.(withVal := w.withVal + {h'}, known := w.known + {h'})))
      else
        Ok(State(b.(waitRefs := b.waitRefs + 1), w.(withoutVal := w.withoutVal + {h'}, known := w.known + {h'})))
    case Drop(h) =>
      var r := if h in w.withVal then DecValRef(b) else Ok(b);
      (match r
       case Fault => Fault
       case Ok(b1) =>
         match DecWaitRef(b1)
         case Fault => Fault
         case Ok(b2) => Ok(State(b2, w.(withVal := w.withVal - {h}, withoutVal := w.withoutVal - {h}))))
    case WithoutVal(h, h') =>
      if b.frees > 0 then Fault
      else if b.resolved && h in w.withVal then Ok(s)
      else Ok(State(b.(waitRefs := b.waitRefs + 1), w.(withoutVal := w.withoutVal + {h'}, known := w.known + {h'})))
    case TryResolve(h) =>
      if b.frees > 0 then Fault
      else if b.resolved then Resolve(s, h, h in w.withVal)
      else Ok(s)
    case WhenResolved(h, a) =>
      if b.frees > 0 then Fault
      else if b.resolved then
        match Resolve(s, h, h in w.withVal)
        case Fault => Fault
        case Ok(s') => Ok(s'.(world := s'.world.(registered := s'.world.registered + [a], ran := s'.world.ran + [a])))
      else if b.waitRefs == 0 then Fault
      else
        Ok(State(b.(waitRefs := b.waitRefs - 1, actions := b.actions + [Action(a, h in w.withVal)]),
                 w.(withVal := w.withVal - {h}, withoutVal := w.withoutVal - {h}, registered := w.registered + [a])))
    case AsFuture(h') =>
      if b.frees > 0 then Fault
      else Ok(State(b.(waitRefs := b.waitRefs + 1, valRefs := b.valRefs + 1),
                    w.(withVal := w.withVal + {h'}, known := w.known + {h'})))
    case Finish(v) =>
      if b.frees > 0 then Fault
      else
        var b1 := if b.valRefs != 0 then b.(cell := Held(v)) else b;
        FinishInternal(State(b1, w.(finished := Some(v))))
  }

  /** A future and its writer, as created together. */
  function NewFuture<V>(cloneable: bool): State<V> {
    State(Block(2, 1, false, [], Empty, 0), World(cloneable, true, {0}, {}, {0}, None, [], [], []))
  }

  /** A writer without a future yet. */
  function NewWriter<V>(cloneable: bool): State<V> {
    State(Block(1, 0, false, [], Empty, 0), World(cloneable, true, {}, {}, {}, None, [], [], []))
  }

  // ---- what every step keeps ----

  function CountTaking(actions: seq<Action>): nat {
    if actions == [] then 0 else (if actions[0].takesVal then 1 else 0) + CountTaking(actions[1..])
  }

  function Ids(actions: seq<Action>): seq<nat> {
    if actions == [] then [] else [actions[0].id] + Ids(actions[1..])
  }

  /** The counts are the numbers of outstanding holders, and the block lives while there is one. */
  ghost predicate Counted<V>(s: State<V>) {
    var b, w := s.block, s.world;
    && b.waitRefs == |w.withVal| + |w.withoutVal| + (if w.writer then 1 else 0)
    && b.valRefs == |w.withVal| + CountTaking(b.actions)
    && b.frees == (if b.waitRefs == 0 then 1 else 0)
    && w.withVal !! w.withoutVal && w.withVal <= w.known && w.withoutVal <= w.known
    && (!w.cloneable ==> b.valRefs <= 1)
  }

  /** The value is in its cell from the finish until the last reader takes it. */
  ghost predicate ValueKept<V>(s: State<V>) {
    var b, w := s.block, s.world;
    && b.resolved == !w.writer
    && b.resolved == w.finished.Some?
    && (b.resolved ==> b.actions == [])
    && (!b.resolved ==> b.cell == Empty && w.delivered == [])
    && (b.resolved && b.valRefs > 0 ==> b.cell == Held(w.finished.value))
    && (b.resolved && b.valRefs == 0 ==> !b.cell.Held?)
    && (forall i :: 0 <= i < |w.delivered| ==> w.finished == Some(w.delivered[i]))
  }

  /** Every registered action has run or is pending, in the order of registration, and once. */
  ghost predicate ActionsKept<V>(s: State<V>) {
    var b, w := s.block, s.world;
    && w.registered == w.ran + Ids(b.actions)
    && (forall i, j :: 0 <= i < j < |w.registered| ==> w.registered[i] != w.registered[j])
  }

  ghost predicate Inv<V>(s: State<V>) {
    Counted(s) && ValueKept(s) && ActionsKept(s)
  }

  lemma CountTakingAppend(actions: seq<Action>, a: Action)
    ensures CountTaking(actions + [a]) == CountTaking(actions) + (if a.takesVal then 1 else 0)
    ensures Ids(actions + [a]) == Ids(actions) + [a.id]
  {
    if actions != [] {
      CountTakingAppend(actions[1..], a);
      assert (actions + [a])[1..] == actions[1..] + [a];
    }
  }

  /** A resolved state in which the actions `todo` have yet to run. */
  ghost predicate Running<V>(s: State<V>, todo: seq<Action>) {
    var b, w := s.block, s.world;
    && b.waitRefs == |w.withVal| + |w.withoutVal| + 1 && b.frees == 0 && w.writer
    && b.valRefs == |w.withVal| + CountTaking(todo)
    && w.withVal !! w.withoutVal && w.withVal <= w.known && w.withoutVal <= w.known
    && (!w.cloneable ==> b.valRefs <= 1)
    && b.resolved && b.actions == [] && w.finished.Some?
    && (b.valRefs > 0 ==> b.cell == Held(w.finished.value))
    && (b.valRefs == 0 ==> !b.cell.Held?)
    && (forall i :: 0 <= i < |w.delivered| ==> w.finished == Some(w.delivered[i]))
    && w.registered == w.ran + Ids(todo)
    && (forall i, j :: 0 <= i < j < |w.registered| ==> w.registered[i] != w.registered[j])
  }

  /** Running the actions hands each its value and leaves the rest of the world alone. */
  lemma {:induction false} RunActionsKeeps<V>(s: State<V>, todo: seq<Action>)
    requires Running(s, todo)
    ensures var r := RunActions(s, todo);
            && r.Ok? && Running(r.state, [])
            && r.state.world.withVal == s.world.withVal && r.state.world.withoutVal == s.world.withoutVal
            && r.state.world.known == s.world.known && r.state.world.cloneable == s.world.cloneable && r.state.world.registered == s.world.registered
            && r.state.world.finished == s.world.finished
    decreases |todo|
  {
    if todo != [] {
      var a := todo[0];
      assert Ids(todo) == [a.id] + Ids(todo[1..]);
      assert s.world.ran + Ids(todo) == (s.world.ran + [a.id]) + Ids(todo[1..]);
      var w := s.world.(ran := s.world.ran + [a.id]);
      if a.takesVal {
        var r := TakeVal(s.block, s.world.cloneable);
        assert r.Ok?;
        RunActionsKeeps(State(r.state.0, w.(delivered := w.delivered + [r.state.1])), todo[1..]);
      } else {
        RunActionsKeeps(s.(world := w), todo[1..]);
      }
    }
  }

  lemma FinishKeeps<V>(s: State<V>, v: V)
    requires Inv(s) && s.world.writer
    ensures var r := Next(s, Finish(v)); r.Ok? && Inv(r.state)
    ensures Next(s, Finish(v)).state.world.ran == s.world.registered
  {
    var b := s.block;
    var b1 := if b.valRefs != 0 then b.(cell := Held(v)) else b;
    var s1 := State(b1.(resolved := true, actions := []), s.world.(finished := Some(v)));
    RunActionsKeeps(s1, b.actions);
    var s2 := RunActions(s1, b.actions).state;
    assert Ids([]) == [];
    assert s2.world.ran + [] == s2.world.ran;
  }

  lemma ResolveKeeps<V>(s: State<V>, h: nat)
    requires Inv(s) && s.block.resolved && (h in s.world.withVal || h in s.world.withoutVal)
    ensures var r := Resolve(s, h, h in s.world.withVal); r.Ok? && Inv(r.state)
    ensures var r := Resolve(s, h, h in s.world.withVal);
            && r.state.world.registered == s.world.registered && r.state.world.ran == s.world.ran
            && r.state.block.actions == []
            && (h in s.world.withVal ==> r.state.world.delivered == s.world.delivered + [s.world.finished.value])
  {
    if h in s.world.withVal {
      ResolveValueKeeps(s, h);
    } else {
      ResolvePlainKeeps(s, h);
    }
  }

  lemma ResolveValueKeeps<V>(s: State<V>, h: nat)
    requires Inv(s) && s.block.resolved && h in s.world.withVal
    ensures var r := Resolve(s, h, true);
            && r.Ok? && Inv(r.state)
            && r.state.world.registered == s.world.registered && r.state.world.ran == s.world.ran
            && r.state.block.actions == []
            && r.state.world.delivered == s.world.delivered + [s.world.finished.value]
  {
    var w := s.world;
    assert w.withoutVal - {h} == w.withoutVal;
    assert |w.withVal - {h}| == |w.withVal| - 1;
  }

  lemma ResolvePlainKeeps<V>(s: State<V>, h: nat)
    requires Inv(s) && s.block.resolved && h in s.world.withoutVal
    ensures var r := Resolve(s, h, false);
            && r.Ok? && Inv(r.state)
            && r.state.world.registered == s.world.registered && r.state.world.ran == s.world.ran
            && r.state.block.actions == []
  {
    var w := s.world;
    assert w.withVal - {h} == w.withVal;
    assert |w.withoutVal - {h}| == |w.withoutVal| - 1;
  }

  lemma DropKeeps<V>(s: State<V>, h: nat)
    requires Inv(s) && (h in s.world.withVal || h in s.world.withoutVal)
    ensures var r := Next(s, Drop(h)); r.Ok? && Inv(r.state)
  {
    if h in s.world.withVal {
      DropValueKeeps(s, h);
    } else {
      DropPlainKeeps(s, h);
    }
  }

  lemma DropValueKeeps<V>(s: State<V>, h: nat)
    requires Inv(s) && h in s.world.withVal
    ensures var r := Next(s, Drop(h)); r.Ok? && Inv(r.state)
  {
    var w := s.world;
    assert w.withoutVal - {h} == w.withoutVal;
    assert |w.withVal - {h}| == |w.withVal| - 1;
  }

  lemma DropPlainKeeps<V>(s: State<V>, h: nat)
    requires Inv(s) && h in s.world.withoutVal
    ensures var r := Next(s, Drop(h)); r.Ok? && Inv(r.state)
  {
    var w := s.world;
    assert w.withVal - {h} == w.withVal;
    assert |w.withoutVal - {h}| == |w.withoutVal| - 1;
  }

  lemma AddHolderKeeps<V>(s: State<V>, h': nat)
    requires Inv(s) && h' !in s.world.known && s.block.frees == 0
    ensures s.world.cloneable && !s.block.resolved
            ==> Inv(State(s.block.(waitRefs := s.block.waitRefs + 1, valRefs := s.block.valRefs + 1),
                          s.world.(withVal := s.world.withVal + {h'}, known := s.world.known + {h'})))
    ensures Inv(State(s.block.(waitRefs := s.block.waitRefs + 1),
                      s.world.(withoutVal := s.world.withoutVal + {h'}, known := s.world.known + {h'})))
  {
    var w := s.world;
    assert h' !in w.withVal && h' !in w.withoutVal;
  }

  lemma WhenResolvedKeeps<V>(s: State<V>, h: nat, a: nat)
    requires Inv(s) && Enabled(s, WhenResolved(h, a))
    ensures var r := Next(s, WhenResolved(h, a)); r.Ok? && Inv(r.state)
  {
    if s.block.resolved {
      RunAtOnceKeeps(s, h, a);
    } else {
      RegisterKeeps(s, h, a);
    }
  }

  lemma RunAtOnceKeeps<V>(s: State<V>, h: nat, a: nat)
    requires Inv(s) && Enabled(s, WhenResolved(h, a)) && s.block.resolved
    ensures var r := Next(s, WhenResolved(h, a)); r.Ok? && Inv(r.state)
  {
    var w := s.world;
    ResolveKeeps(s, h);
    assert w.ran + Ids([]) == w.ran;
    assert w.registered + [a] == (w.ran + [a]) + Ids([]);
  }

  lemma RegisterKeeps<V>(s: State<V>, h: nat, a: nat)
    requires Inv(s) && Enabled(s, WhenResolved(h, a)) && !s.block.resolved
    ensures var r := Next(s, WhenResolved(h, a)); r.Ok? && Inv(r.state)
  {
    var w := s.world;
    CountTakingAppend(s.block.actions, Action(a, h in w.withVal));
    assert w.registered + [a] == w.ran + (Ids(s.block.actions) + [a]);
    if h in w.withVal {
      assert w.withoutVal - {h} == w.withoutVal;
      assert |w.withVal - {h}| == |w.withVal| - 1;
    } else {
      assert w.withVal - {h} == w.withVal;
      assert |w.withoutVal - {h}| == |w.withoutVal| - 1;
    }
  }

  /** A holder keeps the block alive. */
  lemma HolderKeepsAlive<V>(s: State<V>, h: nat)
    requires Counted(s) && (h in s.world.withVal || h in s.world.withoutVal || s.world.writer)
    ensures s.block.frees == 0 && s.block.waitRefs > 0
    ensures h in s.world.withVal ==> s.block.valRefs > 0
  {
    var w := s.world;
    if h in w.withVal {
      assert |w.withVal - {h}| == |w.withVal| - 1;
    } else if h in w.withoutVal {
      assert |w.withoutVal - {h}| == |w.withoutVal| - 1;
    }
  }

  /** No step of a holder faults, and every step keeps the invariant. */
  lemma StepKeeps<V>(s: State<V>, step: Step<V>)
    requires Inv(s) && Enabled(s, step)
    ensures Next(s, step).Ok? && Inv(Next(s, step).state)
  {
    match step {
      case Clone(h, h') =>
        HolderKeepsAlive(s, h);
        AddHolderKeeps(s, h');
      case Drop(h) =>
        DropKeeps(s, h);
      case WithoutVal(h, h') =>
        HolderKeepsAlive(s, h);
        AddHolderKeeps(s, h');
      case TryResolve(h) =>
        HolderKeepsAlive(s, h);
        if s.block.resolved {
          ResolveKeeps(s, h);
        }
      case WhenResolved(h, a) =>
        HolderKeepsAlive(s, h);
        WhenResolvedKeeps(s, h, a);
      case AsFuture(h') =>
        HolderKeepsAlive(s, h');
        AddHolderKeeps(s, h');
      case Finish(v) =>
        FinishKeeps(s, v);
    }
  }

  // ---- whole runs ----

  ghost predicate IsRun<V>(states: seq<State<V>>, steps: seq<Step<V>>) {
    && |states| == |steps| + 1
    && (states[0] == NewFuture(states[0].world.cloneable) || states[0] == NewWriter(states[0].world.cloneable))
    && (forall i, j :: 0 <= i < |steps| && j == i + 1
                       ==> Enabled(states[i], steps[i]) && Next(states[i], steps[i]) == Ok(states[j]))
  }

  lemma {:induction false} RunKeeps<V>(states: seq<State<V>>, steps: seq<Step<V>>, n: nat)
    requires IsRun(states, steps) && n < |states|
    ensures Inv(states[n])
  {
    if n == 0 {
      assert Ids([]) == [];
    } else {
      RunKeeps(states, steps, n - 1);
      assert Next(states[n - 1], steps[n - 1]) == Ok(states[n]);
      StepKeeps(states[n - 1], steps[n - 1]);
    }
  }

  /** In every run: no holder's step can fault; the counts are the numbers of holders; the block
      is freed when the last of them is gone, exactly once, and nobody is left to touch it; every
      value handed out is the finished one; and the actions registered have all run, in order
      and once each, as soon as the future is resolved. */
  lemma BlockLifetime<V>(states: seq<State<V>>, steps: seq<Step<V>>, n: nat)
    requires IsRun(states, steps) && n < |states|
    ensures var b, w := states[n].block, states[n].world;
            && (forall step :: Enabled(states[n], step) ==> Next(states[n], step).Ok?)
            && b.waitRefs == |w.withVal| + |w.withoutVal| + (if w.writer then 1 else 0)
            && b.valRefs == |w.withVal| + CountTaking(b.actions)
            && b.frees == (if w.withVal == {} && w.withoutVal == {} && !w.writer then 1 else 0)
            && (b.frees == 1 ==> !b.cell.Held? && forall step :: !Enabled(states[n], step))
            && (forall i :: 0 <= i < |w.delivered| ==> w.finished == Some(w.delivered[i]))
            && w.ran <= w.registered && (b.resolved ==> w.ran == w.registered)
            && (forall i, j :: 0 <= i < j < |w.ran| ==> w.ran[i] != w.ran[j])
  {
    RunKeeps(states, steps, n);
    var s := states[n];
    forall step | Enabled(s, step)
      ensures Next(s, step).Ok?
    {
      StepKeeps(s, step);
    }
    assert forall i :: 0 <= i < |s.world.ran| ==> s.world.ran[i] == s.world.registered[i];
  }

  /** Once written, the value stays as it is until it leaves the cell; once it has left, by move
      or by drop, it never leaves again. */
  lemma ValueLeavesOnce<V>(s: State<V>, step: Step<V>)
    requires Inv(s) && Enabled(s, step)
    ensures Next(s, step).Ok?
    ensures var c, c' := s.block.cell, Next(s, step).state.block.cell;
            && (c.Gone? ==> c'.Gone?)
            && (c.Held? ==> c' == c || c'.Gone?)
  {
    StepKeeps(s, step);
  }

  // ---- what the steps do, as their callers see it ----

  function Holders<V>(w: World<V>): set<nat> {
    w.withVal + w.withoutVal
  }

  /** Only the holders change, to those given. */
  ghost predicate OnlyHolders<V>(w: World<V>, w': World<V>, withVal: set<nat>, withoutVal: set<nat>) {
    && w'.withVal == withVal && w'.withoutVal == withoutVal && w.known <= w'.known
    && w'.known == w.known + withVal + withoutVal
    && w'.cloneable == w.cloneable && w'.writer == w.writer && w'.finished == w.finished
  }

  /** Holder `h` is gone, and got the finished value if it was one with a value. */
  ghost predicate Left<V>(w: World<V>, w': World<V>, h: nat) {
    && OnlyHolders(w, w', w.withVal - {h}, w.withoutVal - {h})
    && w'.delivered == w.delivered + Got(w, h)
  }

  function Got<V>(w: World<V>, h: nat): seq<V> {
    if h in w.withVal && w.finished.Some? then [w.finished.value] else []
  }

  /** What a step does to the holders and to what has been observed. A future is resolved from the
      time it is finished. */
  ghost predicate Effect<V>(w: World<V>, step: Step<V>, w': World<V>) {
    var resolved := w.finished.Some?;
    var quiet := w'.registered == w.registered && w'.ran == w.ran;
    match step
    case Clone(h, h') =>
      && quiet
      && (if resolved then OnlyHolders(w, w', w.withVal, w.withoutVal) && w'.delivered == w.delivered + Got(w, h)
          else if h in w.withVal then OnlyHolders(w, w', w.withVal + {h'}, w.withoutVal) && w'.delivered == w.delivered
          else OnlyHolders(w, w', w.withVal, w.withoutVal + {h'}) && w'.delivered == w.delivered)
    case Drop(h) => quiet && OnlyHolders(w, w', w.withVal - {h}, w.withoutVal - {h}) && w'.delivered == w.delivered
    case WithoutVal(h, h') =>
      && quiet && w'.delivered == w.delivered
      && OnlyHolders(w, w', w.withVal, w.withoutVal + if resolved && h in w.withVal then {} else {h'})
    case TryResolve(h) =>
      quiet && if resolved then Left(w, w', h) else w' == w
    case WhenResolved(h, a) =>
      && w'.registered == w.registered + [a] && w'.ran == (if resolved then w.ran + [a] else w.ran)
      && Left(w, w', h)
    case AsFuture(h') => quiet && OnlyHolders(w, w', w.withVal + {h'}, w.withoutVal) && w'.delivered == w.delivered
    case Finish(v) =>
      && w'.finished == Some(v) && !w'.writer && w'.ran == w.registered == w'.registered
      && Holders(w') == Holders(w) && w'.withVal == w.withVal && w'.known == w.known && w'.cloneable == w.cloneable
      && w.delivered <= w'.delivered && (forall i :: |w.delivered| <= i < |w'.delivered| ==> w'.delivered[i] == v)
  }

  lemma CloneDoes<V>(s: State<V>, h: nat, h': nat)
    requires Inv(s) && Enabled(s, Clone(h, h'))
    ensures Next(s, Clone(h, h')).Ok? && Effect(s.world, Clone(h, h'), Next(s, Clone(h, h')).state.world)
  {
    HolderKeepsAlive(s, h);
  }

  lemma DropDoes<V>(s: State<V>, h: nat)
    requires Inv(s) && Enabled(s, Drop(h))
    ensures Next(s, Drop(h)).Ok? && Effect(s.world, Drop(h), Next(s, Drop(h)).state.world)
  {
    HolderKeepsAlive(s, h);
  }

  lemma WithoutValDoes<V>(s: State<V>, h: nat, h': nat)
    requires Inv(s) && Enabled(s, WithoutVal(h, h'))
    ensures Next(s, WithoutVal(h, h')).Ok? && Effect(s.world, WithoutVal(h, h'), Next(s, WithoutVal(h, h')).state.world)
  {
    HolderKeepsAlive(s, h);
  }

  lemma ResolveDoes<V>(s: State<V>, h: nat)
    requires Inv(s) && s.block.resolved && (h in s.world.withVal || h in s.world.withoutVal)
    ensures var r := Resolve(s, h, h in s.world.withVal);
            && r.Ok? && Left(s.world, r.state.world, h) && r.state.world.registered == s.world.registered && r.state.world.ran == s.world.ran
  {
    ResolveKeeps(s, h);
    ResolveLeaves(s, h, h in s.world.withVal);
    LeavesHolder(s.world, Resolve(s, h, h in s.world.withVal).state.world, h);
  }

  lemma LeavesHolder<V>(w: World<V>, w': World<V>, h: nat)
    requires w.withVal <= w.known && w.withoutVal <= w.known
    requires w' == w.(withVal := w.withVal - {h}, withoutVal := w.withoutVal - {h}, delivered := w'.delivered)
    requires w'.delivered == if h in w.withVal && w.finished.Some? then w.delivered + [w.finished.value] else w.delivered
    ensures Left(w, w', h)
  {
  }

  /** Whatever the state, a resolve that goes well takes the holder off and changes nothing else of
      the world but what was delivered. */
  lemma ResolveLeaves<V>(s: State<V>, h: nat, val: bool)
    requires Resolve(s, h, val).Ok?
    ensures var w, w' := s.world, Resolve(s, h, val).state.world;
            && w' == w.(withVal := w.withVal - {h}, withoutVal := w.withoutVal - {h}, delivered := w'.delivered)
            && (!val ==> w'.delivered == w.delivered)
  {
  }

  lemma TryResolveDoes<V>(s: State<V>, h: nat)
    requires Inv(s) && Enabled(s, TryResolve(h))
    ensures Next(s, TryResolve(h)).Ok? && Effect(s.world, TryResolve(h), Next(s, TryResolve(h)).state.world)
  {
    HolderKeepsAlive(s, h);
    if s.block.resolved {
      ResolveDoes(s, h);
    }
  }

  lemma WhenResolvedDoes<V>(s: State<V>, h: nat, a: nat)
    requires Inv(s) && Enabled(s, WhenResolved(h, a))
    ensures Next(s, WhenResolved(h, a)).Ok? && Effect(s.world, WhenResolved(h, a), Next(s, WhenResolved(h, a)).state.world)
  {
    HolderKeepsAlive(s, h);
    if s.block.resolved {
      ResolveDoes(s, h);
    }
  }

  lemma FinishDoes<V>(s: State<V>, v: V)
    requires Inv(s) && s.world.writer
    ensures Next(s, Finish(v)).Ok? && Effect(s.world, Finish(v), Next(s, Finish(v)).state.world)
  {
    FinishKeeps(s, v);
    var b1 := if s.block.valRefs != 0 then s.block.(cell := Held(v)) else s.block;
    var s1 := State(b1.(resolved := true, actions := []), s.world.(finished := Some(v)));
    RunActionsKeeps(s1, s.block.actions);
  }

  /** Every step does what its effect says. */
  lemma StepDoes<V>(s: State<V>, step: Step<V>)
    requires Inv(s) && Enabled(s, step)
    ensures Next(s, step).Ok? && Effect(s.world, step, Next(s, step).state.world)
  {
    match step {
      case Clone(h, h') => CloneDoes(s, h, h');
      case Drop(h) => DropDoes(s, h);
      case WithoutVal(h, h') => WithoutValDoes(s, h, h');
      case TryResolve(h) => TryResolveDoes(s, h);
      case WhenResolved(h, a) => WhenResolvedDoes(s, h, a);
      case AsFuture(h') => HolderKeepsAlive(s, h');
      case Finish(v) => FinishDoes(s, v);
    }
  }

  // ---- what comes of a registration ----

  /** Over one step, handles once known stay known, and registrations stay. */
  ghost predicate Continues<V>(w: World<V>, w': World<V>) {
    && w.known <= w'.known && w.registered <= w'.registered
    && (forall h :: h in w.known && h !in Holders(w) ==> h !in Holders(w'))
  }

  lemma EffectContinues<V>(s: State<V>, step: Step<V>, w': World<V>)
    requires Inv(s) && Enabled(s, step) && Effect(s.world, step, w')
    ensures Continues(s.world, w')
  {
  }

  /** A handle that is known and held by nobody, and an action that is registered. */
  ghost predicate Settled<V>(w: World<V>, h: nat, a: nat) {
    h in w.known && h !in Holders(w) && a in w.registered
  }

  /** A step of a run does what its effect says. */
  lemma RunDoes<V>(states: seq<State<V>>, steps: seq<Step<V>>, n: nat)
    requires IsRun(states, steps) && n < |steps|
    ensures Inv(states[n]) && Enabled(states[n], steps[n])
    ensures Inv(states[n + 1]) && Effect(states[n].world, steps[n], states[n + 1].world)
  {
    RunKeeps(states, steps, n);
    RunKeeps(states, steps, n + 1);
    assert Next(states[n], steps[n]) == Ok(states[n + 1]) && Enabled(states[n], steps[n]);
    StepDoes(states[n], steps[n]);
  }

  lemma StepSettles<V>(states: seq<State<V>>, steps: seq<Step<V>>, n: nat, h: nat, a: nat)
    requires IsRun(states, steps) && n < |steps| && Settled(states[n].world, h, a)
    ensures Settled(states[n + 1].world, h, a)
  {
    RunDoes(states, steps, n);
    EffectContinues(states[n], steps[n], states[n + 1].world);
  }

  lemma {:induction false} StaysSettled<V>(states: seq<State<V>>, steps: seq<Step<V>>, i: nat, n: nat, h: nat, a: nat)
    requires IsRun(states, steps) && i <= n < |states| && Settled(states[i].world, h, a)
    ensures Settled(states[n].world, h, a)
    decreases n
  {
    if i < n {
      StaysSettled(states, steps, i, n - 1, h, a);
      StepSettles(states, steps, n - 1, h, a);
    }
  }

  lemma {:induction false} OccursOnce(q: seq<nat>, a: nat)
    requires a in q && forall i, j :: 0 <= i < j < |q| ==> q[i] != q[j]
    ensures multiset(q)[a] == 1
  {
    var rest := q[..|q| - 1];
    assert q == rest + [q[|q| - 1]];
    if q[|q| - 1] == a {
      assert a !in rest;
    } else {
      OccursOnce(rest, a);
    }
  }

  /** In every run an action that was registered is registered once, has run once as soon as the
      future is resolved and not before, and its handle is never held again. */
  lemma RegisteredRuns<V>(states: seq<State<V>>, steps: seq<Step<V>>, i: nat, n: nat, h: nat, a: nat)
    requires IsRun(states, steps) && i < n < |states| && steps[i] == WhenResolved(h, a)
    ensures var w := states[n].world;
            && multiset(w.registered)[a] == 1 && h !in w.withVal && h !in w.withoutVal
            && (states[n].block.resolved ==> multiset(w.ran)[a] == 1)
            && (!states[n].block.resolved ==> a !in w.ran)
  {
    RunDoes(states, steps, i);
    StaysSettled(states, steps, i + 1, n, h, a);
    RunKeeps(states, steps, n);
    NothingRan(states, steps, n);
    var w := states[n].world;
    OccursOnce(w.registered, a);
    if states[n].block.resolved {
      assert w.ran == w.registered;
    }
  }

  lemma QuietUntilFinished<V>(s: State<V>, step: Step<V>, s': State<V>)
    requires Inv(s) && Inv(s') && Effect(s.world, step, s'.world) && (!s.block.resolved ==> s.world.ran == [])
    ensures !s'.block.resolved ==> s'.world.ran == []
  {
    var w, w' := s.world, s'.world;
    assert s.block.resolved <==> w.finished.Some?;
    assert s'.block.resolved <==> w'.finished.Some?;
    assert w.finished.Some? ==> w'.finished.Some?;
  }

  lemma StepStaysQuiet<V>(states: seq<State<V>>, steps: seq<Step<V>>, n: nat)
    requires IsRun(states, steps) && n < |steps| && (!states[n].block.resolved ==> states[n].world.ran == [])
    ensures !states[n + 1].block.resolved ==> states[n + 1].world.ran == []
  {
    RunDoes(states, steps, n);
    QuietUntilFinished(states[n], steps[n], states[n + 1]);
  }

  /** Before a future is resolved, none of its actions has run. */
  lemma {:induction false} NothingRan<V>(states: seq<State<V>>, steps: seq<Step<V>>, n: nat)
    requires IsRun(states, steps) && n < |states|
    ensures !states[n].block.resolved ==> states[n].world.ran == []
  {
    if n > 0 {
      NothingRan(states, steps, n - 1);
      StepStaysQuiet(states, steps, n - 1);
    }
  }
}
