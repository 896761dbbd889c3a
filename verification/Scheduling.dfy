/** What the scheduler does, on plain sequences: threads, the ready queue, wait lists, the thread
    that runs on the core, and the steps that change them.
 */
module Scheduling {
  import opened Basics
  import opened IntrusiveQueues

  type ListId = nat

  datatype ThreadState =
    | Suspended
    | Waiting(list: ListId)
    | Ready
    | Running
    | Dead

  datatype Sched = Sched(
    state: map<Ptr, ThreadState>,
    threads: seq<Ptr>,
    ready: seq<Ptr>,
    waiting: map<ListId, seq<Ptr>>,
    current: Option<Ptr>)

  // ---- each thread is where its state says ----

  ghost predicate ThreadOk(a: Sched, t: Ptr)
    requires t in a.state
  {
    var st := a.state[t];
    && t != Null
    && (st.Ready? <==> t in a.ready)
    && (st.Running? <==> a.current == Some(t))
    && (st.Waiting? ==> st.list in a.waiting && t in a.waiting[st.list])
    && (!st.Dead? <==> t in a.threads)
  }

  /** The threads of list `w` wait on it, or have died. */
  ghost predicate ListOk(a: Sched, w: ListId)
    requires w in a.waiting
  {
    && Distinct(a.waiting[w])
    && forall t :: t in a.waiting[w] ==> t in a.state && (a.state[t] == Waiting(w) || a.state[t] == Dead)
  }

  ghost predicate Placed(a: Sched) {
    && Distinct(a.ready) && (forall t :: t in a.ready ==> t in a.state)
    && Distinct(a.threads) && (forall t :: t in a.threads ==> t in a.state)
    && (a.current.Some? ==> a.current.value in a.state)
    && (forall w :: w in a.waiting ==> ListOk(a, w))
    && (forall t :: t in a.state ==> ThreadOk(a, t))
  }

  /** And the dead are on no list. */
  ghost predicate DeadGone(a: Sched) {
    forall w, t :: w in a.waiting && t in a.waiting[w] && t in a.state ==> a.state[t] != Dead
  }

  ghost predicate Good(a: Sched) {
    Placed(a) && DeadGone(a)
  }

  // ---- the steps ----

  function Create(a: Sched, t: Ptr): Sched {
    a.(state := a.state[t := Suspended], threads := a.threads + [t])
  }

  function NewList(a: Sched, w: ListId): Sched {
    a.(waiting := a.waiting[w := []])
  }

  /** Puts `t` in the ready state and on the ready queue. */
  function MakeReady(a: Sched, t: Ptr): Sched {
    a.(state := a.state[t := Ready], ready := a.ready + [t])
  }

  /** The first ready thread runs next; the core idles when there is none. */
  function Switch(a: Sched): Sched {
    if a.ready == [] then a.(current := None)
    else a.(state := a.state[a.ready[0] := Running], ready := a.ready[1..], current := Some(a.ready[0]))
  }

  function Yield(a: Sched): Sched
    requires a.current.Some?
  {
    Switch(MakeReady(a, a.current.value))
  }

  function Wait(a: Sched, w: ListId): Sched
    requires a.current.Some? && w in a.waiting
  {
    var t := a.current.value;
    Switch(a.(state := a.state[t := Waiting(w)], waiting := a.waiting[w := a.waiting[w] + [t]]))
  }

  function Drop(q: seq<Ptr>, t: Ptr): seq<Ptr> {
    if q == [] then [] else if q[0] == t then q[1..] else [q[0]] + Drop(q[1..], t)
  }

  function Kill(a: Sched): Sched
    requires a.current.Some?
  {
    var t := a.current.value;
    Switch(a.(state := a.state[t := Dead], threads := Drop(a.threads, t)))
  }

  /** The list without its first thread. */
  function Dequeued(a: Sched, w: ListId): Sched
    requires w in a.waiting && a.waiting[w] != []
  {
    a.(waiting := a.waiting[w := a.waiting[w][1..]])
  }

  predicate Alive(a: Sched, t: Ptr) {
    t in a.state && a.state[t] != Dead
  }

  /** Takes threads off the list until one of them is alive, and makes it ready. */
  function WakeOne(a: Sched, w: ListId): (Sched, Option<Ptr>)
    requires w in a.waiting
    decreases if w in a.waiting then |a.waiting[w]| else 0
  {
    var q := a.waiting[w];
    if q == [] then (a, None)
    else if !Alive(a, q[0]) then WakeOne(Dequeued(a, w), w)
    else (MakeReady(Dequeued(a, w), q[0]), Some(q[0]))
  }

  function WakeAll(a: Sched, w: ListId): (Sched, nat)
    requires w in a.waiting
    decreases if w in a.waiting then |a.waiting[w]| else 0
  {
    var q := a.waiting[w];
    if q == [] then (a, 0)
    else if !Alive(a, q[0]) then WakeAll(Dequeued(a, w), w)
    else
      var (b, n) := WakeAll(MakeReady(Dequeued(a, w), q[0]), w);
      (b, n + 1)
  }

  // ---- what the steps keep ----

  lemma CreateKeeps(a: Sched, t: Ptr)
    requires Placed(a) && t !in a.state && t != Null
    ensures Placed(Create(a, t))
    ensures DeadGone(a) ==> DeadGone(Create(a, t))
  {
    var b := Create(a, t);
    forall w | w in b.waiting
      ensures ListOk(b, w)
    {
      assert ListOk(a, w);
    }
    forall u | u in b.state
      ensures ThreadOk(b, u)
    {
      if u != t {
        assert ThreadOk(a, u);
      }
    }
  }

  lemma NewListKeeps(a: Sched, w: ListId)
    requires Placed(a) && w !in a.waiting
    ensures Placed(NewList(a, w))
    ensures DeadGone(a) ==> DeadGone(NewList(a, w))
  {
    var b := NewList(a, w);
    forall v | v in b.waiting
      ensures ListOk(b, v)
    {
      if v != w {
        assert ListOk(a, v);
      }
    }
    forall u | u in b.state
      ensures ThreadOk(b, u)
    {
      assert ThreadOk(a, u);
    }
  }

  /** Thread `t` is about to become ready: it is on no queue and not running, whatever its state
      still says. */
  ghost predicate Loose(a: Sched, t: Ptr) {
    && t in a.state && t != Null && t !in a.ready && t in a.threads && a.current != Some(t)
    && (forall w :: w in a.waiting ==> t !in a.waiting[w])
  }

  /** Everything but thread `t` is where it should be. */
  ghost predicate PlacedBut(a: Sched, t: Ptr) {
    && Distinct(a.ready) && (forall u :: u in a.ready ==> u in a.state)
    && Distinct(a.threads) && (forall u :: u in a.threads ==> u in a.state)
    && (a.current.Some? ==> a.current.value in a.state)
    && (forall w :: w in a.waiting ==> ListOk(a, w))
    && (forall u :: u in a.state && u != t ==> ThreadOk(a, u))
  }

  lemma MakeReadyKeeps(a: Sched, t: Ptr)
    requires PlacedBut(a, t) && Loose(a, t)
    ensures Placed(MakeReady(a, t))
    ensures DeadGone(a) ==> DeadGone(MakeReady(a, t))
  {
    var b := MakeReady(a, t);
    forall w | w in b.waiting
      ensures ListOk(b, w)
    {
      assert ListOk(a, w);
    }
    forall u | u in b.state
      ensures ThreadOk(b, u)
    {
      if u != t {
        assert ThreadOk(a, u);
      }
    }
  }

  /** Before the switch the thread that ran is in a state other than running. */
  ghost predicate Stopped(a: Sched) {
    && Placed(a.(current := None))
  }

  lemma SwitchKeeps(a: Sched)
    requires Stopped(a)
    ensures Placed(Switch(a))
    ensures DeadGone(a) ==> DeadGone(Switch(a))
  {
    var c := a.(current := None);
    var b := Switch(a);
    if a.ready != [] {
      var t := a.ready[0];
      assert t in a.ready && ThreadOk(c, t);
      forall w | w in b.waiting
        ensures ListOk(b, w)
      {
        assert ListOk(c, w);
      }
      assert forall u :: u in a.ready <==> u == t || u in a.ready[1..];
      assert t !in a.ready[1..];
      forall u | u in b.state
        ensures ThreadOk(b, u)
      {
        if u != t {
          assert ThreadOk(c, u);
        }
      }
    }
  }

  lemma YieldKeeps(a: Sched)
    requires Placed(a) && a.current.Some?
    ensures Placed(Yield(a))
    ensures DeadGone(a) ==> DeadGone(Yield(a))
  {
    var t := a.current.value;
    assert ThreadOk(a, t);
    var c := a.(current := None);
    CurrentIsLoose(a);
    MakeReadyKeeps(c, t);
    var b := MakeReady(a, t);
    assert b.(current := None) == MakeReady(c, t);
    assert DeadGone(a) ==> DeadGone(b) by {
      assert DeadGone(a) ==> DeadGone(c);
    }
    SwitchKeeps(b);
  }

  /** Once it is no longer current, the thread that ran is nowhere. */
  lemma CurrentIsLoose(a: Sched)
    requires Placed(a) && a.current.Some?
    ensures PlacedBut(a.(current := None), a.current.value) && Loose(a.(current := None), a.current.value)
  {
    var t := a.current.value;
    var c := a.(current := None);
    assert ThreadOk(a, t);
    forall w | w in c.waiting
      ensures ListOk(c, w) && t !in c.waiting[w]
    {
      assert ListOk(a, w);
    }
    forall u | u in c.state && u != t
      ensures ThreadOk(c, u)
    {
      assert ThreadOk(a, u);
    }
  }

  lemma WaitKeeps(a: Sched, w: ListId)
    requires Placed(a) && a.current.Some? && w in a.waiting
    ensures Placed(Wait(a, w))
    ensures DeadGone(a) ==> DeadGone(Wait(a, w))
  {
    var t := a.current.value;
    var c := a.(current := None);
    CurrentIsLoose(a);
    var b := a.(state := a.state[t := Waiting(w)], waiting := a.waiting[w := a.waiting[w] + [t]]);
    var d := b.(current := None);
    forall v | v in d.waiting
      ensures ListOk(d, v)
    {
      assert ListOk(c, v);
    }
    forall u | u in d.state
      ensures ThreadOk(d, u)
    {
      if u != t {
        assert ThreadOk(c, u);
      }
    }
    SwitchKeeps(b);
  }

  lemma {:induction false} DropIs(q: seq<Ptr>, t: Ptr, i: nat)
    requires i < |q| && q[i] == t && Distinct(q)
    ensures Drop(q, t) == Without(q, i)
  {
    if q[0] == t {
      assert i == 0;
      assert Without(q, 0) == q[1..];
    } else {
      assert q[1..][i - 1] == t;
      DropIs(q[1..], t, i - 1);
      assert Without(q, i) == [q[0]] + Without(q[1..], i - 1);
    }
  }

  lemma DropMembers(q: seq<Ptr>, t: Ptr)
    requires t in q && Distinct(q)
    ensures Distinct(Drop(q, t))
    ensures forall x :: x in Drop(q, t) <==> x in q && x != t
  {
    var i := IndexOf(q, t);
    DropIs(q, t, i);
    WithoutMembers(q, i);
  }

  lemma KillKeeps(a: Sched)
    requires Placed(a) && a.current.Some?
    ensures Placed(Kill(a))
    ensures DeadGone(a) ==> DeadGone(Kill(a))
  {
    var t := a.current.value;
    var c := a.(current := None);
    CurrentIsLoose(a);
    DropMembers(a.threads, t);
    var b := a.(state := a.state[t := Dead], threads := Drop(a.threads, t));
    var d := b.(current := None);
    forall v | v in d.waiting
      ensures ListOk(d, v)
    {
      assert ListOk(c, v);
    }
    forall u | u in d.state
      ensures ThreadOk(d, u)
    {
      if u != t {
        assert ThreadOk(c, u);
      }
    }
    SwitchKeeps(b);
  }

  /** A thread taken off its list is nowhere; a dead one is where it should be. */
  lemma DequeuedKeeps(a: Sched, w: ListId)
    requires Placed(a) && w in a.waiting && a.waiting[w] != []
    ensures var b, t := Dequeued(a, w), a.waiting[w][0];
            && t in a.state
            && (a.state[t] == Dead ==> Placed(b))
            && (a.state[t] != Dead ==> a.state[t] == Waiting(w) && PlacedBut(b, t) && Loose(b, t))
    ensures DeadGone(a) ==> DeadGone(Dequeued(a, w))
  {
    var b, t := Dequeued(a, w), a.waiting[w][0];
    var q := a.waiting[w];
    assert ListOk(a, w) && t in q;
    assert forall u :: u in q <==> u == t || u in q[1..];
    assert t !in q[1..];
    forall v | v in b.waiting
      ensures ListOk(b, v) && (a.state[t] != Dead ==> t !in b.waiting[v])
    {
      assert ListOk(a, v);
    }
    forall u | u in b.state && (u != t || a.state[t] == Dead)
      ensures ThreadOk(b, u)
    {
      assert ThreadOk(a, u);
    }
    assert ThreadOk(a, t);
  }

  lemma {:induction false} WakeOneKeeps(a: Sched, w: ListId)
    requires Placed(a) && w in a.waiting
    ensures Placed(WakeOne(a, w).0)
    ensures DeadGone(a) ==> DeadGone(WakeOne(a, w).0)
    decreases |a.waiting[w]|
  {
    var q := a.waiting[w];
    if q != [] {
      DequeuedKeeps(a, w);
      if a.state[q[0]] == Dead {
        WakeOneKeeps(Dequeued(a, w), w);
      } else {
        MakeReadyKeeps(Dequeued(a, w), q[0]);
      }
    }
  }

  /** With no dead thread on it, a list is woken in the order of waiting. */
  lemma WakeOneTakesFirst(a: Sched, w: ListId)
    requires Placed(a) && DeadGone(a) && w in a.waiting
    ensures WakeOne(a, w) == if a.waiting[w] == [] then (a, None)
                             else (MakeReady(Dequeued(a, w), a.waiting[w][0]), Some(a.waiting[w][0]))
  {
    if a.waiting[w] != [] {
      assert ListOk(a, w) && a.waiting[w][0] in a.waiting[w];
    }
  }

  lemma {:induction false} WakeAllKeeps(a: Sched, w: ListId)
    requires Placed(a) && w in a.waiting
    ensures Placed(WakeAll(a, w).0)
    ensures DeadGone(a) ==> DeadGone(WakeAll(a, w).0)
    decreases |a.waiting[w]|
  {
    var q := a.waiting[w];
    if q != [] {
      DequeuedKeeps(a, w);
      if a.state[q[0]] == Dead {
        WakeAllKeeps(Dequeued(a, w), w);
      } else {
        MakeReadyKeeps(Dequeued(a, w), q[0]);
        WakeAllKeeps(MakeReady(Dequeued(a, w), q[0]), w);
      }
    }
  }

  /** With no dead thread on it, the whole list becomes ready, in the order of waiting. */
  lemma {:induction false} WakeAllTakesAll(a: Sched, w: ListId)
    requires w in a.waiting && (forall t :: t in a.waiting[w] ==> Alive(a, t))
    ensures WakeAll(a, w).0.ready == a.ready + a.waiting[w] && WakeAll(a, w).1 == |a.waiting[w]|
    ensures WakeAll(a, w).0.waiting == a.waiting[w := []] && WakeAll(a, w).0.current == a.current
    decreases |a.waiting[w]|
  {
    var q := a.waiting[w];
    if q == [] {
      assert a.waiting == a.waiting[w := []];
    } else {
      assert q[0] in q;
      var b := MakeReady(Dequeued(a, w), q[0]);
      forall t | t in b.waiting[w]
        ensures Alive(b, t)
      {
        assert t in q && Alive(a, t);
      }
      WakeAllTakesAll(b, w);
      assert b.waiting[w := []] == a.waiting[w := []];
      assert (a.ready + [q[0]]) + q[1..] == a.ready + q;
    }
  }

  // ---- runs ----

  datatype Step =
    | CreateThread(thread: Ptr)
    | MakeList(list: ListId)
    | WakeThread(thread: Ptr)
    | YieldStep
    | WaitOn(list: ListId)
    | KillStep
    | WakeOneOf(list: ListId)
    | WakeAllOf(list: ListId)
    | IdleSwitch

  /** Steps that switch to another thread. */
  predicate Switches(step: Step) {
    step.YieldStep? || step.WaitOn? || step.KillStep? || step.IdleSwitch?
  }

  predicate Enabled(a: Sched, step: Step) {
    match step
    case CreateThread(t) => t !in a.state && t != Null
    case MakeList(w) => w !in a.waiting
    case WakeThread(t) => t in a.state && a.state[t] == Suspended
    case YieldStep => a.current.Some?
    case WaitOn(w) => a.current.Some? && w in a.waiting
    case KillStep => a.current.Some?
    case WakeOneOf(w) => w in a.waiting
    case WakeAllOf(w) => w in a.waiting
    case IdleSwitch => a.current.None?
  }

  function Do(a: Sched, step: Step): Sched
    requires Enabled(a, step)
  {
    match step
    case CreateThread(t) => Create(a, t)
    case MakeList(w) => NewList(a, w)
    case WakeThread(t) => MakeReady(a, t)
    case YieldStep => Yield(a)
    case WaitOn(w) => Wait(a, w)
    case KillStep => Kill(a)
    case WakeOneOf(w) => WakeOne(a, w).0
    case WakeAllOf(w) => WakeAll(a, w).0
    case IdleSwitch => Switch(a)
  }

  lemma SuspendedIsLoose(a: Sched, t: Ptr)
    requires Placed(a) && t in a.state && a.state[t] == Suspended
    ensures PlacedBut(a, t) && Loose(a, t)
  {
    assert ThreadOk(a, t);
    forall w | w in a.waiting
      ensures t !in a.waiting[w]
    {
      assert ListOk(a, w);
    }
  }

  /** Every step keeps each thread where its state says, and the dead on no queue. */
  lemma StepKeeps(a: Sched, step: Step)
    requires Placed(a) && DeadGone(a) && Enabled(a, step)
    ensures Placed(Do(a, step)) && DeadGone(Do(a, step))
  {
    match step
    case CreateThread(t) => CreateKeeps(a, t);
    case MakeList(w) => NewListKeeps(a, w);
    case WakeThread(t) =>
      SuspendedIsLoose(a, t);
      MakeReadyKeeps(a, t);
    case YieldStep => YieldKeeps(a);
    case WaitOn(w) => WaitKeeps(a, w);
    case KillStep => KillKeeps(a);
    case WakeOneOf(w) =>
      assert ListOk(a, w);
      WakeOneKeeps(a, w);
    case WakeAllOf(w) =>
      assert ListOk(a, w);
      WakeAllKeeps(a, w);
    case IdleSwitch => SwitchKeeps(a);
  }

  // ---- what the steps do, on queues and states ----

  /** Threads outside `ts` keep their states, and no thread appears or disappears but for `ts`. */
  ghost predicate OthersKeep(a: Sched, b: Sched, ts: set<Ptr>) {
    && (forall u :: u in a.state && u !in ts ==> u in b.state && b.state[u] == a.state[u])
    && (forall u :: u in b.state && u !in ts ==> u in a.state)
  }

  /** The core takes the first thread of queue `q`, or idles; `b` is the state then. */
  ghost predicate Runs(q: seq<Ptr>, b: Sched) {
    if q == [] then b.current == None && b.ready == []
    else b.current.Some? && [b.current.value] + b.ready == q && b.current.value in b.state && b.state[b.current.value] == Running
  }

  /** The thread that ran, and the one that runs now. */
  function Swapped(t: Ptr, b: Sched): set<Ptr> {
    {t} + if b.current.Some? then {b.current.value} else {}
  }

  ghost predicate Yielded(a: Sched, t: Ptr, b: Sched) {
    && b.current.Some? && Runs(a.ready + [t], b)
    && t in b.state && (b.current != Some(t) ==> b.state[t] == Ready) && OthersKeep(a, b, Swapped(t, b))
    && b.threads == a.threads && b.waiting == a.waiting
  }

  /** List `w` holds `q` now, and the other lists what they held. */
  ghost predicate OneList(a: Sched, w: ListId, q: seq<Ptr>, b: Sched) {
    && w in b.waiting && b.waiting[w] == q && b.waiting.Keys == a.waiting.Keys + {w}
    && (forall v :: v in a.waiting && v != w ==> b.waiting[v] == a.waiting[v])
  }

  ghost predicate Waited(a: Sched, t: Ptr, w: ListId, b: Sched)
    requires w in a.waiting
  {
    && Runs(a.ready, b) && t in b.state && b.state[t] == Waiting(w) && OthersKeep(a, b, Swapped(t, b))
    && OneList(a, w, a.waiting[w] + [t], b) && b.threads == a.threads
  }

  ghost predicate Killed(a: Sched, t: Ptr, b: Sched) {
    && Runs(a.ready, b) && t in b.state && b.state[t] == Dead && OthersKeep(a, b, Swapped(t, b))
    && t !in b.threads && (exists i :: RemovedAt(a.threads, i, t, b.threads)) && b.waiting == a.waiting
  }

  ghost predicate RemovedAt(q: seq<Ptr>, i: int, t: Ptr, r: seq<Ptr>) {
    0 <= i < |q| && q[i] == t && r == q[..i] + q[i + 1..]
  }

  ghost predicate OneWoken(a: Sched, w: ListId, b: Sched)
    requires w in a.waiting
  {
    var q := a.waiting[w];
    if q == [] then b == a
    else
      && q[0] in b.state && b.state[q[0]] == Ready && OthersKeep(a, b, {q[0]}) && b.ready == a.ready + [q[0]]
      && OneList(a, w, q[1..], b) && b.threads == a.threads && b.current == a.current
  }

  ghost predicate AllWoken(a: Sched, w: ListId, b: Sched)
    requires w in a.waiting
  {
    var q := a.waiting[w];
    && (forall t :: t in q ==> t in b.state && b.state[t] == Ready) && OthersKeep(a, b, set t | t in q)
    && b.ready == a.ready + q && OneList(a, w, [], b) && b.threads == a.threads && b.current == a.current
  }

  ghost predicate Idled(a: Sched, b: Sched) {
    && Runs(a.ready, b) && OthersKeep(a, b, if b.current.Some? then {b.current.value} else {})
    && b.threads == a.threads && b.waiting == a.waiting
  }

  /** What step `step` makes of `a`, on queues and states. */
  ghost predicate Effect(a: Sched, step: Step, b: Sched)
    requires Enabled(a, step)
  {
    match step
    case CreateThread(t) =>
      && t in b.state && b.state[t] == Suspended && OthersKeep(a, b, {t}) && b.threads == a.threads + [t]
      && b.ready == a.ready && b.waiting == a.waiting && b.current == a.current
    case MakeList(w) =>
      OneList(a, w, [], b) && b.state == a.state && b.threads == a.threads && b.ready == a.ready && b.current == a.current
    case WakeThread(t) =>
      && t in b.state && b.state[t] == Ready && OthersKeep(a, b, {t}) && b.ready == a.ready + [t]
      && b.threads == a.threads && b.waiting == a.waiting && b.current == a.current
    case YieldStep => Yielded(a, a.current.value, b)
    case WaitOn(w) => Waited(a, a.current.value, w, b)
    case KillStep => Killed(a, a.current.value, b)
    case WakeOneOf(w) => OneWoken(a, w, b)
    case WakeAllOf(w) => AllWoken(a, w, b)
    case IdleSwitch => Idled(a, b)
  }

  lemma SwitchRuns(a: Sched)
    requires forall t :: t in a.ready ==> t in a.state
    ensures Runs(a.ready, Switch(a)) && Switch(a).threads == a.threads && Switch(a).waiting == a.waiting
    ensures OthersKeep(a, Switch(a), if Switch(a).current.Some? then {Switch(a).current.value} else {})
  {
    if a.ready != [] {
      assert [a.ready[0]] + a.ready[1..] == a.ready;
    }
  }

  lemma YieldDoes(a: Sched)
    requires Good(a) && Enabled(a, YieldStep)
    ensures Effect(a, YieldStep, Do(a, YieldStep))
  {
    CurrentIsLoose(a);
    SwitchRuns(MakeReady(a, a.current.value));
  }

  lemma WaitDoes(a: Sched, w: ListId)
    requires Good(a) && Enabled(a, WaitOn(w))
    ensures Effect(a, WaitOn(w), Do(a, WaitOn(w)))
  {
    var t := a.current.value;
    CurrentIsLoose(a);
    SwitchRuns(a.(state := a.state[t := Waiting(w)], waiting := a.waiting[w := a.waiting[w] + [t]]));
  }

  lemma KillDoes(a: Sched)
    requires Good(a) && Enabled(a, KillStep)
    ensures Effect(a, KillStep, Do(a, KillStep))
  {
    var t := a.current.value;
    CurrentIsLoose(a);
    var i := IndexOf(a.threads, t);
    DropIs(a.threads, t, i);
    DropMembers(a.threads, t);
    assert RemovedAt(a.threads, i, t, Drop(a.threads, t));
    SwitchRuns(a.(state := a.state[t := Dead], threads := Drop(a.threads, t)));
  }

  lemma {:induction false} WakeAllStates(a: Sched, w: ListId)
    requires w in a.waiting && (forall t :: t in a.waiting[w] ==> Alive(a, t)) && Distinct(a.waiting[w])
    ensures var b := WakeAll(a, w).0;
            && (forall t :: t in a.waiting[w] ==> t in b.state && b.state[t] == Ready)
            && OthersKeep(a, b, set t | t in a.waiting[w]) && b.threads == a.threads
    decreases |a.waiting[w]|
  {
    var q := a.waiting[w];
    if q != [] {
      assert q[0] in q;
      var b := MakeReady(Dequeued(a, w), q[0]);
      assert forall t :: t in q <==> t == q[0] || t in q[1..];
      WakeAllStates(b, w);
      assert q[0] !in q[1..];
    }
  }

  lemma WakeAllDoes(a: Sched, w: ListId)
    requires Good(a) && Enabled(a, WakeAllOf(w))
    ensures Effect(a, WakeAllOf(w), Do(a, WakeAllOf(w)))
  {
    assert ListOk(a, w);
    WakeAllTakesAll(a, w);
    WakeAllStates(a, w);
  }

  lemma WakeOneDoes(a: Sched, w: ListId)
    requires Good(a) && Enabled(a, WakeOneOf(w))
    ensures Effect(a, WakeOneOf(w), Do(a, WakeOneOf(w)))
  {
    WakeOneTakesFirst(a, w);
    assert ListOk(a, w);
  }

  /** Every step does what its effect says ... */
  lemma StepDoes(a: Sched, step: Step)
    requires Good(a) && Enabled(a, step)
    ensures Effect(a, step, Do(a, step))
  {
    match step
    case YieldStep => YieldDoes(a);
    case WaitOn(w) => WaitDoes(a, w);
    case KillStep => KillDoes(a);
    case WakeOneOf(w) => WakeOneDoes(a, w);
    case WakeAllOf(w) => WakeAllDoes(a, w);
    case IdleSwitch => SwitchRuns(a);
    case _ =>
  }

  /** Threads outside `ts` fixed, the maps can only differ inside. */
  lemma StatesAgree(a: Sched, b: Sched, c: Sched, ts: set<Ptr>)
    requires OthersKeep(a, b, ts) && OthersKeep(a, c, ts)
    requires forall u :: u in ts ==> u in b.state && u in c.state && b.state[u] == c.state[u]
    ensures b.state == c.state
  {
    assert b.state.Keys == c.state.Keys;
  }

  lemma ListsAgree(a: Sched, w: ListId, q: seq<Ptr>, b: Sched, c: Sched)
    requires OneList(a, w, q, b) && OneList(a, w, q, c)
    ensures b.waiting == c.waiting
  {
  }

  lemma RunsIsExact(q: seq<Ptr>, b: Sched, c: Sched)
    requires Runs(q, b) && Runs(q, c)
    ensures b.ready == c.ready && b.current == c.current
    ensures b.current.Some? ==> b.current.value in b.state && b.current.value in c.state && b.state[b.current.value] == Running == c.state[b.current.value]
  {
    if q != [] {
      assert [b.current.value] + b.ready == q == [c.current.value] + c.ready;
      assert b.current.value == q[0] == c.current.value && b.ready == q[1..] == c.ready;
    }
  }

  lemma YieldIsExact(a: Sched, t: Ptr, b: Sched, c: Sched)
    requires Yielded(a, t, b) && Yielded(a, t, c)
    ensures b == c
  {
    RunsIsExact(a.ready + [t], b, c);
    StatesAgree(a, b, c, Swapped(t, b));
  }

  lemma WaitIsExact(a: Sched, t: Ptr, w: ListId, b: Sched, c: Sched)
    requires w in a.waiting && Waited(a, t, w, b) && Waited(a, t, w, c)
    ensures b == c
  {
    RunsIsExact(a.ready, b, c);
    StatesAgree(a, b, c, Swapped(t, b));
    ListsAgree(a, w, a.waiting[w] + [t], b, c);
  }

  lemma KillIsExact(a: Sched, t: Ptr, b: Sched, c: Sched)
    requires Distinct(a.threads) && Killed(a, t, b) && Killed(a, t, c)
    ensures b == c
  {
    RunsIsExact(a.ready, b, c);
    StatesAgree(a, b, c, Swapped(t, b));
    var i :| RemovedAt(a.threads, i, t, b.threads);
    var j :| RemovedAt(a.threads, j, t, c.threads);
  }

  lemma WakeIsExact(a: Sched, w: ListId, b: Sched, c: Sched)
    requires w in a.waiting
    ensures OneWoken(a, w, b) && OneWoken(a, w, c) ==> b == c
    ensures AllWoken(a, w, b) && AllWoken(a, w, c) ==> b == c
  {
    var q := a.waiting[w];
    if OneWoken(a, w, b) && OneWoken(a, w, c) && q != [] {
      StatesAgree(a, b, c, {q[0]});
      ListsAgree(a, w, q[1..], b, c);
    }
    if AllWoken(a, w, b) && AllWoken(a, w, c) {
      StatesAgree(a, b, c, set t | t in q);
      ListsAgree(a, w, [], b, c);
    }
  }

  lemma IdleIsExact(a: Sched, b: Sched, c: Sched)
    requires Idled(a, b) && Idled(a, c)
    ensures b == c
  {
    RunsIsExact(a.ready, b, c);
    StatesAgree(a, b, c, if b.current.Some? then {b.current.value} else {});
  }

  /** ... and that determines the state. */
  lemma EffectIsExact(a: Sched, step: Step, b: Sched)
    requires Good(a) && Enabled(a, step) && Effect(a, step, b)
    ensures b == Do(a, step)
  {
    StepDoes(a, step);
    var c := Do(a, step);
    match step {
      case CreateThread(t) => StatesAgree(a, b, c, {t});
      case MakeList(w) => ListsAgree(a, w, [], b, c);
      case WakeThread(t) => StatesAgree(a, b, c, {t});
      case YieldStep => YieldIsExact(a, a.current.value, b, c);
      case WaitOn(w) => WaitIsExact(a, a.current.value, w, b, c);
      case KillStep => KillIsExact(a, a.current.value, b, c);
      case WakeOneOf(w) => WakeIsExact(a, w, b, c);
      case WakeAllOf(w) => WakeIsExact(a, w, b, c);
      case IdleSwitch => IdleIsExact(a, b, c);
    }
  }

  /** The state after boot: the init thread runs. */
  function Boot(t: Ptr): Sched {
    Sched(map[t := Running], [t], [], map[], Some(t))
  }

  ghost predicate Follows(states: seq<Sched>, steps: seq<Step>, i: nat)
    requires i < |steps| < |states|
  {
    Enabled(states[i], steps[i]) && states[i + 1] == Do(states[i], steps[i])
  }

  ghost predicate IsRun(states: seq<Sched>, steps: seq<Step>) {
    && |states| == |steps| + 1
    && (forall i :: 0 <= i < |steps| ==> Follows(states, steps, i))
  }

  lemma BootGood(t: Ptr)
    requires t != Null
    ensures Good(Boot(t))
  {
  }

  /** In every reachable state each thread is where its state says. */
  lemma {:induction false} RunKeeps(states: seq<Sched>, steps: seq<Step>, n: nat)
    requires IsRun(states, steps) && Good(states[0]) && n < |states|
    ensures Good(states[n])
  {
    if n > 0 {
      RunKeeps(states, steps, n - 1);
      assert Follows(states, steps, n - 1);
      StepKeeps(states[n - 1], steps[n - 1]);
    }
  }

  /** How many of the first `n` steps switch. */
  function SwitchCount(steps: seq<Step>, n: nat): nat
    requires n <= |steps|
  {
    if n == 0 then 0 else SwitchCount(steps, n - 1) + if Switches(steps[n - 1]) then 1 else 0
  }

  /** One step moves the ready queue on by one exactly when it switches. */
  lemma ReadyMovesOn(a: Sched, step: Step)
    requires Good(a) && Enabled(a, step)
    ensures !Switches(step) ==> a.ready <= Do(a, step).ready
    ensures Switches(step) && a.ready != [] ==> a.ready[1..] <= Do(a, step).ready && Do(a, step).current == Some(a.ready[0])
  {
    match step
    case WakeOneOf(w) =>
      assert ListOk(a, w);
      WakeOneTakesFirst(a, w);
    case WakeAllOf(w) =>
      assert ListOk(a, w);
      WakeAllTakesAll(a, w);
    case YieldStep =>
      if a.ready != [] {
        assert (a.ready + [a.current.value])[1..] == a.ready[1..] + [a.current.value];
      }
    case _ =>
  }

  /** A thread at position `k` of the ready queue moves up by one at each switch ... */
  lemma {:induction false} QueuePosition(states: seq<Sched>, steps: seq<Step>, i: nat, t: Ptr, k: nat, n: nat)
    requires IsRun(states, steps) && Good(states[0]) && i <= n <= |steps|
    requires k < |states[i].ready| && states[i].ready[k] == t
    requires SwitchCount(steps, n) - SwitchCount(steps, i) <= k
    ensures var p := k - (SwitchCount(steps, n) - SwitchCount(steps, i)); 0 <= p < |states[n].ready| && states[n].ready[p] == t
    decreases n
  {
    if n > i {
      SwitchesAscend(steps, i, n - 1);
      QueuePosition(states, steps, i, t, k, n - 1);
      RunKeeps(states, steps, n - 1);
      assert Follows(states, steps, n - 1);
      ReadyMovesOn(states[n - 1], steps[n - 1]);
      var p := k - (SwitchCount(steps, n - 1) - SwitchCount(steps, i));
      if Switches(steps[n - 1]) {
        assert states[n - 1].ready[1..][p - 1] == t;
      }
    }
  }

  lemma {:induction false} SwitchesAscend(steps: seq<Step>, i: nat, n: nat)
    requires i <= n <= |steps|
    ensures SwitchCount(steps, i) <= SwitchCount(steps, n)
    decreases n
  {
    if i < n {
      SwitchesAscend(steps, i, n - 1);
    }
  }

  /** ... so it is not running before the (k+1)th switch, and runs right after it. */
  lemma BecomesCurrent(states: seq<Sched>, steps: seq<Step>, i: nat, t: Ptr, k: nat, n: nat)
    requires IsRun(states, steps) && Good(states[0]) && i <= n < |steps|
    requires k < |states[i].ready| && states[i].ready[k] == t
    requires SwitchCount(steps, n) - SwitchCount(steps, i) <= k
    ensures states[n].current != Some(t)
    ensures states[n + 1].current == Some(t) <==> SwitchCount(steps, n + 1) - SwitchCount(steps, i) == k + 1
  {
    QueuePosition(states, steps, i, t, k, n);
    SwitchesAscend(steps, i, n);
    RunKeeps(states, steps, n);
    var a := states[n];
    assert t in a.ready && ThreadOk(a, t);
    assert Follows(states, steps, n);
    ReadyMovesOn(a, steps[n]);
    if SwitchCount(steps, n + 1) - SwitchCount(steps, i) <= k {
      QueuePosition(states, steps, i, t, k, n + 1);
      StepKeeps(a, steps[n]);
      assert ThreadOk(states[n + 1], t);
    }
  }

  /** A thread that yields while `k` threads are ready runs on at once if there is none, and
      otherwise again right after the (k+1)th switch, its own included, and not before. */
  lemma YieldedReturns(states: seq<Sched>, steps: seq<Step>, i: nat, t: Ptr, n: nat)
    requires IsRun(states, steps) && Good(states[0]) && i < |steps| && steps[i] == YieldStep && states[i].current == Some(t)
    ensures states[i].ready == [] ==> states[i + 1].current == Some(t)
    ensures i < n < |steps| && SwitchCount(steps, n) - SwitchCount(steps, i) <= |states[i].ready|
            ==> && states[n].current != Some(t)
                && (states[n + 1].current == Some(t) <==> SwitchCount(steps, n + 1) - SwitchCount(steps, i) == |states[i].ready| + 1)
  {
    var a, b, k := states[i], states[i + 1], |states[i].ready|;
    RunKeeps(states, steps, i);
    assert Follows(states, steps, i);
    YieldDoes(a);
    if k == 0 {
      assert a.ready + [t] == [t];
    } else {
      assert ([b.current.value] + b.ready)[k] == t;
    }
    if i < n < |steps| {
      SwitchesAscend(steps, i + 1, n);
      if k > 0 && SwitchCount(steps, n) - SwitchCount(steps, i) <= k {
        BecomesCurrent(states, steps, i + 1, t, k - 1, n);
      }
    }
  }
}
