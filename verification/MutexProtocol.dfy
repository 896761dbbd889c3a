/** The blocking mutex: a word changed by compare-and-swap and a wait list, used by any number of
    threads whose atomic operations interleave freely.
 */
module MutexProtocol {
  import opened Basics

  /** Threads are named by their addresses, which leave the two lowest bits free. */
  type Tid = t: nat | t % 4 == 0 && t > 0 witness 4

  datatype Word =
    | Unlocked
    | NoWaiters(owner: nat)
    | WithWaiters(owner: nat)
    | WaitersLocked(owner: nat)
  {
    function Owner(): Option<nat> {
      if Unlocked? then None else Some(owner)
    }
  }

  // ---- the encoding of the word ----

  function Encode(w: Word): nat {
    match w
    case Unlocked => 0
    case NoWaiters(t) => t
    case WithWaiters(t) => t + 1
    case WaitersLocked(t) => t + 3
  }

  /** The code clears the lowest bit only, for both tagged forms. The protocol is studied with that
      decoder and with an exact one, which clears both bits. */
  function Decode(exact: bool, v: nat): Word {
    if v == 0 then Unlocked
    else if v % 4 == 0 then NoWaiters(v)
    else if v % 4 == 1 then WithWaiters(v - v % 2)
    else WaitersLocked(if exact then v - v % 4 else v - v % 2)
  }

  predicate Proper(w: Word) {
    !w.Unlocked? ==> w.owner % 4 == 0 && w.owner > 0
  }

  /** What a load of the word yields: with the decoder of the code, the owner of a locked wait list
      comes out two too large. */
  function Seen(exact: bool, w: Word): Word {
    match w
    case WaitersLocked(t) => WaitersLocked(if exact then t else t + 2)
    case _ => w
  }

  /** The decoder of the code undoes encoding exactly for the words whose wait list is not locked;
      the exact one always does. */
  lemma DecodeEncode(exact: bool, w: Word)
    requires Proper(w)
    ensures Decode(exact, Encode(w)) == Seen(exact, w)
    ensures Decode(exact, Encode(w)) == w <==> exact || !w.WaitersLocked?
  {
    if !w.Unlocked? {
      Tags(w.owner);
    }
  }

  lemma Tags(t: nat)
    requires t % 4 == 0
    ensures (t + 1) % 4 == 1 && (t + 1) % 2 == 1 && (t + 3) % 4 == 3 && (t + 3) % 2 == 1
  {
    var k := t / 4;
    assert t == 4 * k;
    Remainder4(k, 1);
    Remainder4(k, 3);
    Remainder2(2 * k);
    Remainder2(2 * k + 1);
  }

  lemma Remainder4(k: nat, c: nat)
    requires c < 4
    ensures (4 * k + c) % 4 == c
  {
  }

  lemma Remainder2(k: nat)
    ensures (2 * k + 1) % 2 == 1
  {
  }

  /** Comparing encoded words, as compare-and-swap does, compares the words. */
  lemma EncodeInjective(v: Word, w: Word)
    requires Proper(v) && Proper(w)
    ensures Encode(v) == Encode(w) <==> v == w
  {
  }

  // ---- threads ----

  /** Where a thread is. The owner kept by a sleeper is the one it saw before sleeping. */
  datatype Pc =
    | Outside
    | Fast
    | Slow(seen: Word)
    | Queueing(owner: nat)
    | Queued(owner: nat)
    | Parked(owner: nat)
    | Woken(owner: nat)
    | Checking
    | Holding
    | ReleaseFast
    | ReleaseSlow(seen: Word)
    | Waking
    | Storing(next: Option<Tid>)

  /** `section` is the thread that runs with interrupts disabled between its two accesses to the
      word. `arrived` and `handed` record the order of queueing and of hand-off. `exact` is whether
      words are decoded exactly. */
  datatype State = State(
    exact: bool,
    word: Word,
    waiters: seq<Tid>,
    pc: map<Tid, Pc>,
    section: Option<Tid>,
    arrived: seq<Tid>,
    handed: seq<Tid>)

  datatype Outcome = Ok(state: State) | Panic(line: nat)

  predicate InSection(pc: Pc) {
    pc.Queueing? || pc.Queued? || pc.Waking? || pc.Storing?
  }

  /** Between a completed acquire and the end of the release. */
  predicate Owns(pc: Pc) {
    pc.Holding? || pc.ReleaseFast? || pc.ReleaseSlow? || pc.Waking? || pc.Storing?
  }

  predicate Handed(pc: Pc) {
    pc.Woken? || pc.Checking?
  }

  function At(s: State, t: Tid, pc: Pc): State {
    s.(pc := s.pc[t := pc])
  }

  /** One atomic operation of thread `t`; `try` chooses between acquiring and trying to. */
  function Next(s: State, t: Tid, try: bool): Outcome
    requires t in s.pc
  {
    match s.pc[t]
    case Outside =>
      if !try then Ok(At(s, t, Fast))
      else if s.word == Unlocked then Ok(At(s, t, Holding).(word := NoWaiters(t)))
      else Ok(s)
    case Fast =>
      if s.word == Unlocked then Ok(At(s, t, Holding).(word := NoWaiters(t)))
      else Ok(At(s, t, Slow(Seen(s.exact, s.word))))
    case Slow(seen) =>
      (match seen
       case Unlocked =>
         if s.word == Unlocked then Ok(At(s, t, Holding).(word := NoWaiters(t)))
         else Ok(At(s, t, Slow(Seen(s.exact, s.word))))
       case WaitersLocked(_) =>
         Ok(At(s, t, Slow(Seen(s.exact, s.word))))
       case _ =>
         if s.word == seen then
           Ok(At(s, t, Queueing(seen.owner)).(word := WaitersLocked(seen.owner), section := Some(t)))
         else Ok(At(s, t, Slow(Seen(s.exact, s.word)))))
    case Queueing(owner) =>
      Ok(At(s, t, Queued(owner)).(waiters := s.waiters + [t], arrived := s.arrived + [t]))
    case Queued(owner) =>
      if s.word == WaitersLocked(owner) then
        Ok(At(s, t, Parked(owner)).(word := WithWaiters(owner), section := None))
      else Panic(123)
    case Parked(_) => Ok(s)
    case Woken(owner) =>
      if Seen(s.exact, s.word).Owner() == Some(owner) then Ok(s) else Ok(At(s, t, Checking))
    case Checking =>
      if Seen(s.exact, s.word).Owner() == Some(t) then Ok(At(s, t, Holding)) else Panic(138)
    case Holding => Ok(At(s, t, ReleaseFast))
    case ReleaseFast =>
      if s.word == NoWaiters(t) then Ok(At(s, t, Outside).(word := Unlocked))
      else Ok(At(s, t, ReleaseSlow(Seen(s.exact, s.word))))
    case ReleaseSlow(seen) =>
      if seen == WithWaiters(t) then
        if s.word == seen then Ok(At(s, t, Waking).(word := WaitersLocked(t), section := Some(t)))
        else Ok(At(s, t, ReleaseSlow(Seen(s.exact, s.word))))
      else if seen == WaitersLocked(t) then Ok(At(s, t, ReleaseSlow(Seen(s.exact, s.word))))
      else Panic(213)
    case Waking =>
      if s.waiters == [] then Ok(At(s, t, Storing(None)))
      else
        var n := s.waiters[0];
        var woken := if n in s.pc && s.pc[n].Parked? then At(s, n, Woken(s.pc[n].owner)) else s;
        Ok(At(woken, t, Storing(Some(n))).(waiters := s.waiters[1..], handed := s.handed + [n]))
    case Storing(next) =>
      Ok(At(s, t, Outside).(word := (match next case Some(n) => WithWaiters(n) case None => Unlocked), section := None))
  }

  function Init(exact: bool, threads: set<Tid>): State {
    State(exact, Unlocked, [], map t | t in threads :: Outside, None, [], [])
  }

  // ---- what every interleaving keeps ----

  /** What holds of the word, the list and the section. */
  ghost predicate GlobalOk(s: State) {
    && Proper(s.word)
    && (s.section.Some? ==> s.section.value in s.pc)
    && (s.word.WaitersLocked? <==> s.section.Some?)
    && (!s.word.Unlocked? ==> s.word.owner in s.pc && (Owns(s.pc[s.word.owner]) || Handed(s.pc[s.word.owner])))
    && (forall i, j :: 0 <= i < j < |s.waiters| ==> s.waiters[i] != s.waiters[j])
    && (forall t :: t in s.waiters ==> t in s.pc)
    && (s.waiters != [] ==> s.word.WithWaiters? || s.word.WaitersLocked?)
    && s.arrived == s.handed + s.waiters
  }

  /** What holds of thread `t`. */
  ghost predicate ThreadOk(s: State, t: Tid)
    requires t in s.pc
  {
    var pc := s.pc[t];
    && (InSection(pc) <==> s.section == Some(t))
    && (t in s.waiters <==> pc.Queued? || pc.Parked?)
    && (Owns(pc) ==> s.word.Owner() == Some(t))
    && (pc.Queueing? || pc.Queued? ==> s.word == WaitersLocked(pc.owner))
    && (pc.Queueing? || pc.Queued? || pc.Parked? || pc.Woken? ==> pc.owner != t)
    && (pc.Slow? ==> pc.seen.WaitersLocked? || Proper(pc.seen))
    && (pc.ReleaseSlow? ==> !s.word.NoWaiters? && (pc.seen == WithWaiters(t) || pc.seen == Seen(s.exact, WaitersLocked(t))))
    && (Handed(pc) ==> s.word.Owner() == Some(t) || BeingHanded(s, t))
    && (pc == Storing(None) ==> s.waiters == [])
    && (pc.Storing? && pc.next.Some? ==> pc.next.value in s.pc && Handed(s.pc[pc.next.value]))
  }

  ghost predicate BeingHanded(s: State, t: Tid) {
    s.section.Some? && s.section.value in s.pc && s.pc[s.section.value] == Storing(Some(t))
  }

  ghost predicate Inv(s: State) {
    GlobalOk(s) && forall t :: t in s.pc ==> ThreadOk(s, t)
  }

  /** What a step of `t` must establish. */
  ghost predicate Kept(s: State, t: Tid, try: bool)
    requires t in s.pc
  {
    var r := Next(s, t, try);
    match r
    case Ok(s') => Inv(s') && s'.pc.Keys == s.pc.Keys && s'.exact == s.exact
    case Panic(line) => line != 123
  }

  /** Not involved with the lock: outside, or trying to acquire it. */
  predicate Neutral(pc: Pc) {
    pc.Outside? || pc.Fast? || (pc.Slow? && (pc.seen.WaitersLocked? || Proper(pc.seen)))
  }

  /** A thread that is not involved may move among the uninvolved places. */
  lemma NeutralMove(s: State, t: Tid, pc: Pc)
    requires Inv(s) && t in s.pc && Neutral(s.pc[t]) && Neutral(pc)
    ensures Inv(At(s, t, pc))
  {
    NeutralGlobal(s, t, pc);
    forall u | u in At(s, t, pc).pc
      ensures ThreadOk(At(s, t, pc), u)
    {
      NeutralThread(s, t, pc, u);
    }
  }

  lemma NeutralGlobal(s: State, t: Tid, pc: Pc)
    requires GlobalOk(s) && t in s.pc && ThreadOk(s, t) && Neutral(s.pc[t]) && Neutral(pc)
    ensures GlobalOk(At(s, t, pc))
  {
  }

  lemma NeutralThread(s: State, t: Tid, pc: Pc, u: Tid)
    requires t in s.pc && u in s.pc && ThreadOk(s, t) && ThreadOk(s, u) && Neutral(s.pc[t]) && Neutral(pc)
    ensures ThreadOk(At(s, t, pc), u)
  {
  }

  /** Taking a free lock. */
  lemma TakeFree(s: State, t: Tid)
    requires Inv(s) && t in s.pc && Neutral(s.pc[t]) && s.word == Unlocked
    ensures Inv(At(s, t, Holding).(word := NoWaiters(t)))
  {
  }

  /** Locking the wait list of a held lock, to queue on it. */
  lemma LockList(s: State, t: Tid, owner: nat)
    requires Inv(s) && t in s.pc && Neutral(s.pc[t])
    requires s.word == NoWaiters(owner) || s.word == WithWaiters(owner)
    ensures Inv(At(s, t, Queueing(owner)).(word := WaitersLocked(owner), section := Some(t)))
  {
  }

  lemma AcquireKeeps(s: State, t: Tid, try: bool)
    requires Inv(s) && t in s.pc && (s.pc[t].Outside? || s.pc[t].Fast?)
    ensures Kept(s, t, try)
  {
    if s.pc[t].Outside? && !try {
      NeutralMove(s, t, Fast);
    } else if s.word == Unlocked {
      TakeFree(s, t);
    } else if s.pc[t].Fast? {
      NeutralMove(s, t, Slow(Seen(s.exact, s.word)));
    }
  }

  lemma SlowKeeps(s: State, t: Tid, try: bool)
    requires Inv(s) && t in s.pc && s.pc[t].Slow?
    ensures Kept(s, t, try)
  {
    var seen := s.pc[t].seen;
    if s.word == seen && seen == Unlocked {
      TakeFree(s, t);
    } else if s.word == seen && !seen.WaitersLocked? {
      LockList(s, t, seen.owner);
    } else {
      NeutralMove(s, t, Slow(Seen(s.exact, s.word)));
    }
  }

  /** The list with one more waiter, or one fewer, holds no thread twice. */
  lemma LongerList(s: State, t: Tid)
    requires Inv(s) && t in s.pc && s.pc[t].Queueing?
    ensures var s' := At(s, t, Queued(s.pc[t].owner)).(waiters := s.waiters + [t], arrived := s.arrived + [t]);
            GlobalOk(s') && forall u :: u in s'.waiters <==> u in s.waiters || u == t
  {
    var s' := At(s, t, Queued(s.pc[t].owner)).(waiters := s.waiters + [t], arrived := s.arrived + [t]);
    assert ThreadOk(s, t) && t !in s.waiters;
    assert s.arrived + [t] == s.handed + (s.waiters + [t]);
    assert forall u :: u in s'.waiters <==> u in s.waiters || u == t;
  }

  lemma EntersList(s: State, t: Tid)
    requires Inv(s) && t in s.pc && s.pc[t].Queueing?
    ensures Inv(At(s, t, Queued(s.pc[t].owner)).(waiters := s.waiters + [t], arrived := s.arrived + [t]))
  {
    var s' := At(s, t, Queued(s.pc[t].owner)).(waiters := s.waiters + [t], arrived := s.arrived + [t]);
    LongerList(s, t);
    forall u | u in s'.pc
      ensures ThreadOk(s', u)
    {
      assert ThreadOk(s, u) && ThreadOk(s, t);
    }
  }

  lemma Parks(s: State, t: Tid)
    requires Inv(s) && t in s.pc && s.pc[t].Queued?
    ensures var owner := s.pc[t].owner;
            && s.word == WaitersLocked(owner)
            && Inv(At(s, t, Parked(owner)).(word := WithWaiters(owner), section := None))
  {
    assert ThreadOk(s, t);
  }

  lemma QueueKeeps(s: State, t: Tid, try: bool)
    requires Inv(s) && t in s.pc && (s.pc[t].Queueing? || s.pc[t].Queued?)
    ensures Kept(s, t, try)
  {
    if s.pc[t].Queueing? {
      EntersList(s, t);
    } else {
      Parks(s, t);
    }
  }

  /** A thread that was handed the lock goes on to check it, and then to hold it. */
  lemma HandedMove(s: State, t: Tid, pc: Pc)
    requires Inv(s) && t in s.pc && Handed(s.pc[t])
    requires pc.Checking? || (pc.Holding? && s.word.Owner() == Some(t))
    ensures Inv(At(s, t, pc))
  {
  }

  /** The owner moves towards its release. */
  lemma OwnerMove(s: State, t: Tid, pc: Pc)
    requires Inv(s) && t in s.pc && (s.pc[t].Holding? || s.pc[t].ReleaseFast? || s.pc[t].ReleaseSlow?)
    requires pc.ReleaseFast? || (pc.ReleaseSlow? && pc.seen == Seen(s.exact, s.word) && !s.word.NoWaiters?)
    ensures Inv(At(s, t, pc))
  {
  }

  lemma Unlock(s: State, t: Tid)
    requires Inv(s) && t in s.pc && s.pc[t].ReleaseFast? && s.word == NoWaiters(t)
    ensures Inv(At(s, t, Outside).(word := Unlocked))
  {
  }

  lemma LockListToWake(s: State, t: Tid)
    requires Inv(s) && t in s.pc && s.pc[t].ReleaseSlow? && s.word == WithWaiters(t)
    ensures Inv(At(s, t, Waking).(word := WaitersLocked(t), section := Some(t)))
  {
  }

  lemma WakeUpKeeps(s: State, t: Tid, try: bool)
    requires Inv(s) && t in s.pc && (s.pc[t].Parked? || s.pc[t].Woken? || s.pc[t].Checking? || s.pc[t].Holding?)
    ensures Kept(s, t, try)
  {
    match s.pc[t] {
      case Parked(_) =>
      case Woken(owner) =>
        if Seen(s.exact, s.word).Owner() != Some(owner) {
          HandedMove(s, t, Checking);
        }
      case Checking =>
        if s.word.Owner() == Some(t) {
          HandedMove(s, t, Holding);
        }
      case Holding =>
        OwnerMove(s, t, ReleaseFast);
    }
  }

  lemma ReleaseKeeps(s: State, t: Tid, try: bool)
    requires Inv(s) && t in s.pc && (s.pc[t].ReleaseFast? || s.pc[t].ReleaseSlow?)
    ensures Kept(s, t, try)
  {
    if s.word.NoWaiters? {
      Unlock(s, t);
    } else if s.pc[t].ReleaseSlow? && s.pc[t].seen == WithWaiters(t) && s.word == s.pc[t].seen {
      LockListToWake(s, t);
    } else {
      OwnerMove(s, t, ReleaseSlow(Seen(s.exact, s.word)));
    }
  }

  /** Thread `t` takes `n` off the list and wakes it. */
  function HandOver(s: State, t: Tid, n: Tid, owner: nat): State
    requires s.waiters != []
  {
    At(At(s, n, Woken(owner)), t, Storing(Some(n))).(waiters := s.waiters[1..], handed := s.handed + [n])
  }

  lemma FirstIsParked(s: State, t: Tid)
    requires Inv(s) && t in s.pc && s.pc[t].Waking? && s.waiters != []
    ensures var n := s.waiters[0]; n in s.pc && s.pc[n].Parked? && n != t && n !in s.waiters[1..]
  {
    var n := s.waiters[0];
    assert n in s.waiters && ThreadOk(s, n) && ThreadOk(s, t);
  }

  lemma HandOverGlobal(s: State, t: Tid, n: Tid, owner: nat)
    requires Inv(s) && t in s.pc && s.pc[t].Waking? && s.waiters != [] && s.waiters[0] == n && n in s.pc && n != t
    ensures GlobalOk(HandOver(s, t, n, owner))
    ensures forall u :: u in s.waiters <==> u == n || u in s.waiters[1..]
  {
    assert ThreadOk(s, t);
    assert s.handed + s.waiters == (s.handed + [n]) + s.waiters[1..];
    assert forall u :: u in s.waiters <==> u == n || u in s.waiters[1..];
  }

  lemma HandOverKeeps(s: State, t: Tid, n: Tid)
    requires Inv(s) && t in s.pc && s.pc[t].Waking? && s.waiters != [] && s.waiters[0] == n && n in s.pc && s.pc[n].Parked?
    ensures Inv(HandOver(s, t, n, s.pc[n].owner))
  {
    var s' := HandOver(s, t, n, s.pc[n].owner);
    FirstIsParked(s, t);
    HandOverGlobal(s, t, n, s.pc[n].owner);
    forall u | u in s'.pc
      ensures ThreadOk(s', u)
    {
      assert ThreadOk(s, u) && ThreadOk(s, t);
    }
  }

  lemma WakesNone(s: State, t: Tid)
    requires Inv(s) && t in s.pc && s.pc[t].Waking? && s.waiters == []
    ensures Inv(At(s, t, Storing(None)))
  {
    var s' := At(s, t, Storing(None));
    forall u | u in s'.pc
      ensures ThreadOk(s', u)
    {
      assert ThreadOk(s, u) && ThreadOk(s, t);
    }
  }

  lemma WakingKeeps(s: State, t: Tid, try: bool)
    requires Inv(s) && t in s.pc && s.pc[t].Waking?
    ensures Kept(s, t, try)
  {
    if s.waiters == [] {
      WakesNone(s, t);
    } else {
      var n := s.waiters[0];
      FirstIsParked(s, t);
      HandOverKeeps(s, t, n);
      assert Next(s, t, try) == Ok(HandOver(s, t, n, s.pc[n].owner));
    }
  }

  lemma StoringKeeps(s: State, t: Tid, try: bool)
    requires Inv(s) && t in s.pc && s.pc[t].Storing?
    ensures Kept(s, t, try)
  {
    var s' := Next(s, t, try).state;
    assert ThreadOk(s, t);
    forall u | u in s'.pc
      ensures ThreadOk(s', u)
    {
      assert ThreadOk(s, u);
    }
  }

  /** With any number of threads interleaving single atomic operations, every step keeps the
      invariant, and the check on the word after queueing never fails. */
  lemma StepKeeps(s: State, t: Tid, try: bool)
    requires Inv(s) && t in s.pc
    ensures Kept(s, t, try)
  {
    match s.pc[t] {
      case Outside => AcquireKeeps(s, t, try);
      case Fast => AcquireKeeps(s, t, try);
      case Slow(_) => SlowKeeps(s, t, try);
      case Queueing(_) => QueueKeeps(s, t, try);
      case Queued(_) => QueueKeeps(s, t, try);
      case Parked(_) => WakeUpKeeps(s, t, try);
      case Woken(_) => WakeUpKeeps(s, t, try);
      case Checking => WakeUpKeeps(s, t, try);
      case Holding => WakeUpKeeps(s, t, try);
      case ReleaseFast => ReleaseKeeps(s, t, try);
      case ReleaseSlow(_) => ReleaseKeeps(s, t, try);
      case Waking => WakingKeeps(s, t, try);
      case Storing(_) => StoringKeeps(s, t, try);
    }
  }

  /** The panics of the lock, exactly. A release panics only with the decoder of the code, when its
      last load met a locked wait list. A woken thread panics when it looks at the word too early:
      with the decoder of the code while any thread has the wait list locked, with the exact one
      while the releaser that hands it the lock has not stored the word yet. */
  lemma PanicsExactly(s: State, t: Tid, try: bool)
    requires Inv(s) && t in s.pc
    ensures Next(s, t, try) == Panic(213) <==> !s.exact && s.pc[t].ReleaseSlow? && s.pc[t].seen.WaitersLocked?
    ensures Next(s, t, try) == Panic(138) <==> s.pc[t].Checking? && if s.exact then BeingHanded(s, t) else s.section.Some?
    ensures Next(s, t, try).Panic? ==> Next(s, t, try) == Panic(213) || Next(s, t, try) == Panic(138)
  {
    assert ThreadOk(s, t);
    if s.section.Some? {
      assert ThreadOk(s, s.section.value);
    }
  }

  /** With the exact decoder, a woken thread goes on to a check that fails exactly when it stops
      waiting while it is still being handed the lock, by another thread than the owner it saw
      before it slept. */
  lemma EntersDoomed(s: State, t: Tid, try: bool)
    requires Inv(s) && s.exact && t in s.pc && s.pc[t].Woken?
    ensures Next(s, t, try).Ok?
    ensures var s' := Next(s, t, try).state;
            Doomed(s', t) <==> BeingHanded(s, t) && s.section != Some(s.pc[t].owner)
  {
    assert ThreadOk(s, t);
    if s.section.Some? {
      assert ThreadOk(s, s.section.value);
    }
  }

  /** The check of `t` would fail now. */
  ghost predicate Doomed(s: State, t: Tid) {
    t in s.pc && s.pc[t].Checking? && BeingHanded(s, t)
  }

  /** Nothing else leads to such a check. */
  lemma DoomedBefore(s: State, u: Tid, try: bool, t: Tid)
    requires Inv(s) && s.exact && u in s.pc && Next(s, u, try).Ok? && Doomed(Next(s, u, try).state, t)
    ensures Doomed(s, t) || (u == t && s.pc[t].Woken? && BeingHanded(s, t) && s.section != Some(s.pc[t].owner))
  {
    assert ThreadOk(s, u);
    if u == t && s.pc[t].Woken? {
      EntersDoomed(s, t, try);
    } else if t in s.pc {
      assert ThreadOk(s, t);
    }
  }

  // ---- whole runs ----

  /** A run: who moves at each point, and whether it tries or acquires when it starts. */
  datatype Move = Move(thread: Tid, try: bool)

  ghost predicate IsRun(states: seq<State>, moves: seq<Move>) {
    && |states| == |moves| + 1
    && states[0] == Init(states[0].exact, states[0].pc.Keys)
    && (forall i :: 0 <= i < |moves| ==> Follows(states, moves, i))
  }

  ghost predicate Follows(states: seq<State>, moves: seq<Move>, i: nat)
    requires i < |moves| < |states|
  {
    && moves[i].thread in states[i].pc
    && Next(states[i], moves[i].thread, moves[i].try) == Ok(states[i + 1])
  }

  lemma {:induction false} RunKeeps(states: seq<State>, moves: seq<Move>, n: nat)
    requires IsRun(states, moves) && n < |states|
    ensures Inv(states[n]) && states[n].exact == states[0].exact
  {
    if n > 0 {
      RunKeeps(states, moves, n - 1);
      assert Follows(states, moves, n - 1);
      StepKeeps(states[n - 1], moves[n - 1].thread, moves[n - 1].try);
    }
  }

  /** In every run at most one thread is between acquire and release. */
  lemma MutualExclusion(states: seq<State>, moves: seq<Move>, n: nat, t: Tid, u: Tid)
    requires IsRun(states, moves) && n < |states| && t in states[n].pc && u in states[n].pc
    requires Owns(states[n].pc[t]) && Owns(states[n].pc[u])
    ensures t == u
  {
    RunKeeps(states, moves, n);
    assert ThreadOk(states[n], t) && ThreadOk(states[n], u);
  }

  /** In every run no sleeper is lost: a parked thread is on the list, the word says that there
      are waiters, and its owner is a thread that holds the lock or was handed it. Threads are
      handed the lock in the order in which they queued. */
  lemma NoLostSleeper(states: seq<State>, moves: seq<Move>, n: nat, t: Tid)
    requires IsRun(states, moves) && n < |states| && t in states[n].pc && states[n].pc[t].Parked?
    ensures var s := states[n];
            && t in s.waiters && (s.word.WithWaiters? || s.word.WaitersLocked?)
            && s.word.owner in s.pc && (Owns(s.pc[s.word.owner]) || Handed(s.pc[s.word.owner]))
  {
    RunKeeps(states, moves, n);
    assert ThreadOk(states[n], t);
  }

  lemma HandOffIsFifo(states: seq<State>, moves: seq<Move>, n: nat)
    requires IsRun(states, moves) && n < |states|
    ensures states[n].handed <= states[n].arrived
    ensures states[n].arrived[|states[n].handed|..] == states[n].waiters
  {
    RunKeeps(states, moves, n);
  }

  /** With an exact decoder no release panics, in any interleaving. */
  lemma ReleaseNeverPanics(states: seq<State>, moves: seq<Move>, n: nat, t: Tid, try: bool)
    requires IsRun(states, moves) && states[0].exact && n < |states| && t in states[n].pc
    ensures Next(states[n], t, try) != Panic(213)
  {
    RunKeeps(states, moves, n);
    PanicsExactly(states[n], t, try);
  }

  /** And a woken thread panics only in one way: some step ago it stopped waiting because the word
      named a releaser that was not the owner it had seen before it slept, and that releaser has
      still not stored the word. */
  lemma {:induction false} WakePanicsOnlyByOwner(states: seq<State>, moves: seq<Move>, n: nat, t: Tid) returns (i: nat)
    requires IsRun(states, moves) && states[0].exact && n < |states| && Doomed(states[n], t)
    ensures i < n && moves[i].thread == t && t in states[i].pc && states[i].pc[t].Woken?
    ensures BeingHanded(states[i], t) && states[i].section != Some(states[i].pc[t].owner)
    ensures forall j :: i < j <= n ==> Doomed(states[j], t)
  {
    NotDoomedAtFirst(states, moves, n, t);
    i := n - 1;
    RunKeeps(states, moves, i);
    assert Follows(states, moves, i);
    DoomedBefore(states[i], moves[i].thread, moves[i].try, t);
    if Doomed(states[i], t) {
      i := WakePanicsOnlyByOwner(states, moves, i, t);
    }
  }

  lemma NotDoomedAtFirst(states: seq<State>, moves: seq<Move>, n: nat, t: Tid)
    requires IsRun(states, moves) && n < |states|
    ensures Doomed(states[n], t) ==> n > 0
  {
  }

  // ---- one core ----

  /** On one core a thread that runs with interrupts disabled is not preempted, so no other
      thread moves while one is in its section. */
  predicate OneCore(s: State, t: Tid) {
    s.section == None || s.section == Some(t)
  }

  /** On one core a load never meets a locked wait list, so no word comes out garbled. */
  ghost predicate NothingGarbled(s: State) {
    && (forall t :: t in s.pc && s.pc[t].ReleaseSlow? ==> s.pc[t].seen == WithWaiters(t))
    && (forall t :: t in s.pc && s.pc[t].Checking? ==> s.word.Owner() == Some(t))
  }

  lemma OneCoreNoPanic(s: State, t: Tid, try: bool)
    requires Inv(s) && NothingGarbled(s) && t in s.pc && OneCore(s, t)
    ensures Next(s, t, try).Ok?
  {
    assert ThreadOk(s, t);
  }

  /** A thread that was checking its ownership before the step of `t` and still is. */
  lemma StillChecking(s: State, t: Tid, try: bool, u: Tid)
    requires Inv(s) && t in s.pc && OneCore(s, t) && u in s.pc && u != t
    requires s.pc[u].Checking? && s.word.Owner() == Some(u) && Next(s, t, try).Ok?
    ensures Next(s, t, try).state.word.Owner() == Some(u)
  {
    assert ThreadOk(s, t);
  }

  /** What the stepping thread itself may rely on after its step. */
  lemma OwnLoadClean(s: State, t: Tid, try: bool)
    requires Inv(s) && NothingGarbled(s) && t in s.pc && OneCore(s, t) && Next(s, t, try).Ok?
    ensures var s' := Next(s, t, try).state; t in s'.pc && (s'.pc[t].ReleaseSlow? ==> s'.pc[t].seen == WithWaiters(t))
  {
    assert ThreadOk(s, t);
  }

  lemma OwnCheckPasses(s: State, t: Tid, try: bool)
    requires Inv(s) && NothingGarbled(s) && t in s.pc && OneCore(s, t) && Next(s, t, try).Ok?
    ensures var s' := Next(s, t, try).state; t in s'.pc && (s'.pc[t].Checking? ==> s'.word.Owner() == Some(t))
  {
    assert ThreadOk(s, t);
  }

  /** Another thread is moved only by being woken. */
  lemma OthersStay(s: State, t: Tid, try: bool, u: Tid)
    requires t in s.pc && u != t && Next(s, t, try).Ok?
    ensures var s' := Next(s, t, try).state;
            && (u in s'.pc <==> u in s.pc)
            && (u in s.pc ==> s'.pc[u] == s.pc[u] || s'.pc[u].Woken?)
  {
    if s.pc[t].Waking? {
      WakesAtMostOne(s, t, try, u);
    } else {
      MovesAlone(s, t, try, u);
    }
  }

  lemma WakesAtMostOne(s: State, t: Tid, try: bool, u: Tid)
    requires t in s.pc && u != t && s.pc[t].Waking?
    ensures var s' := Next(s, t, try).state;
            && (u in s'.pc <==> u in s.pc)
            && (u in s.pc ==> s'.pc[u] == s.pc[u] || s'.pc[u].Woken?)
  {
  }

  lemma MovesAlone(s: State, t: Tid, try: bool, u: Tid)
    requires t in s.pc && u != t && !s.pc[t].Waking? && Next(s, t, try).Ok?
    ensures var s' := Next(s, t, try).state;
            && (u in s'.pc <==> u in s.pc)
            && (u in s.pc ==> s'.pc[u] == s.pc[u])
  {
    assert Next(s, t, try).state.pc == s.pc[t := Next(s, t, try).state.pc[t]];
  }

  /** On one core no step panics. */
  lemma OneCoreStep(s: State, t: Tid, try: bool)
    requires Inv(s) && NothingGarbled(s) && t in s.pc && OneCore(s, t)
    ensures Next(s, t, try).Ok? && NothingGarbled(Next(s, t, try).state)
  {
    OneCoreNoPanic(s, t, try);
    OwnLoadClean(s, t, try);
    OwnCheckPasses(s, t, try);
    var s' := Next(s, t, try).state;
    forall u | u in s'.pc && u != t
      ensures s'.pc[u].ReleaseSlow? ==> s'.pc[u].seen == WithWaiters(u)
      ensures s'.pc[u].Checking? ==> s'.word.Owner() == Some(u)
    {
      OthersStay(s, t, try, u);
      if s'.pc[u].Checking? {
        StillChecking(s, t, try, u);
      }
    }
  }

  ghost predicate OneCoreRun(states: seq<State>, moves: seq<Move>) {
    && IsRun(states, moves)
    && (forall i :: 0 <= i < |moves| ==> OneCore(states[i], moves[i].thread))
  }

  lemma {:induction false} OneCoreRunKeeps(states: seq<State>, moves: seq<Move>, n: nat)
    requires OneCoreRun(states, moves) && n < |states|
    ensures NothingGarbled(states[n])
  {
    if n > 0 {
      OneCoreRunKeeps(states, moves, n - 1);
      RunKeeps(states, moves, n - 1);
      assert Follows(states, moves, n - 1);
      assert OneCore(states[n - 1], moves[n - 1].thread);
      OneCoreStep(states[n - 1], moves[n - 1].thread, moves[n - 1].try);
    }
  }

  /** In every run on one core, none of the panics of the lock can happen next. */
  lemma OneCoreNeverPanics(states: seq<State>, moves: seq<Move>, n: nat, t: Tid, try: bool)
    requires OneCoreRun(states, moves) && n < |states| && t in states[n].pc && OneCore(states[n], t)
    ensures Next(states[n], t, try).Ok?
  {
    RunKeeps(states, moves, n);
    OneCoreRunKeeps(states, moves, n);
    OneCoreStep(states[n], t, try);
  }

  // ---- more than one core ----

  ghost predicate Reachable(s: State) {
    exists states, moves :: IsRun(states, moves) && Last(states) == s
  }

  function Last(states: seq<State>): State
    requires states != []
  {
    states[|states| - 1]
  }

  lemma ReachStep(s: State, t: Tid)
    requires Reachable(s) && t in s.pc && Next(s, t, false).Ok?
    ensures Reachable(Next(s, t, false).state)
  {
    var states: seq<State>, moves: seq<Move> :| IsRun(states, moves) && Last(states) == s;
    var s' := Next(s, t, false).state;
    var states', moves' := states + [s'], moves + [Move(t, false)];
    forall i | 0 <= i < |moves'|
      ensures Follows(states', moves', i)
    {
      if i < |moves| {
        assert Follows(states, moves, i);
      }
    }
    assert Last(states') == s';
    assert states'[0] == states[0];
    assert IsRun(states', moves');
  }

  lemma ReachInit(exact: bool, threads: set<Tid>)
    ensures Reachable(Init(exact, threads))
  {
    assert Init(exact, threads).pc.Keys == threads;
    assert IsRun([Init(exact, threads)], []);
    assert Last([Init(exact, threads)]) == Init(exact, threads);
  }

  /** The step of `t` that leads from `s` to `s'`. */
  lemma Advance(s: State, t: Tid, s': State)
    requires Reachable(s) && t in s.pc && Next(s, t, false) == Ok(s')
    ensures Reachable(s')
  {
    ReachStep(s, t);
  }

  // The moves of one thread through a whole operation, when no other interferes.

  function Took(s: State, t: Tid): State {
    At(s, t, Holding).(word := NoWaiters(t))
  }

  function Slept(s: State, t: Tid, owner: nat): State {
    At(s, t, Parked(owner)).(word := WithWaiters(owner), waiters := s.waiters + [t], arrived := s.arrived + [t])
  }

  /** The owner has taken the first waiter off the list and is about to store the word. */
  function Waker(s: State, t: Tid, n: Tid, owner: nat): State
    requires s.waiters != []
  {
    HandOver(s, t, n, owner).(word := WaitersLocked(t), section := Some(t))
  }

  function Stored(s: State, t: Tid, n: Tid): State {
    At(s, t, Outside).(word := WithWaiters(n), section := None)
  }

  lemma AtTwice(s: State, t: Tid, p: Pc, q: Pc)
    ensures At(At(s, t, p), t, q) == At(s, t, q)
  {
  }

  lemma Take(s: State, t: Tid)
    requires Reachable(s) && t in s.pc && s.pc[t] == Outside && s.word == Unlocked
    ensures Reachable(Took(s, t))
  {
    ReachStep(s, t);
    AtTwice(s, t, Fast, Holding);
    Advance(At(s, t, Fast), t, Took(s, t));
  }

  lemma LocksList(s: State, t: Tid, owner: nat)
    requires Reachable(s) && t in s.pc && s.pc[t] == Outside
    requires s.word == NoWaiters(owner) || s.word == WithWaiters(owner)
    ensures Reachable(At(s, t, Queueing(owner)).(word := WaitersLocked(owner), section := Some(t)))
  {
    var s1, s2 := At(s, t, Fast), At(s, t, Slow(s.word));
    Advance(s, t, s1);
    AtTwice(s, t, Fast, Slow(s.word));
    Advance(s1, t, s2);
    AtTwice(s, t, Slow(s.word), Queueing(owner));
    Advance(s2, t, At(s, t, Queueing(owner)).(word := WaitersLocked(owner), section := Some(t)));
  }

  lemma Sleep(s: State, t: Tid, owner: nat)
    requires Reachable(s) && t in s.pc && s.pc[t] == Outside
    requires s.word == NoWaiters(owner) || s.word == WithWaiters(owner)
    requires s.section == None
    ensures Reachable(Slept(s, t, owner))
  {
    var s3 := At(s, t, Queueing(owner)).(word := WaitersLocked(owner), section := Some(t));
    var s4 := At(s, t, Queued(owner)).(word := WaitersLocked(owner), section := Some(t), waiters := s.waiters + [t], arrived := s.arrived + [t]);
    LocksList(s, t, owner);
    AtTwice(s, t, Queueing(owner), Queued(owner));
    Advance(s3, t, s4);
    AtTwice(s, t, Queued(owner), Parked(owner));
    Advance(s4, t, Slept(s, t, owner));
  }

  lemma WakeFirst(s: State, t: Tid, n: Tid, owner: nat)
    requires Reachable(s) && t in s.pc && s.pc[t] == Holding && s.word == WithWaiters(t)
    requires s.waiters != [] && s.waiters[0] == n && n in s.pc && s.pc[n] == Parked(owner) && n != t
    ensures Reachable(Waker(s, t, n, owner))
  {
    var s' := At(s, t, Waking).(word := WaitersLocked(t), section := Some(t));
    ReleaseLocks(s, t);
    assert s'.pc[n := Woken(owner)][t := Storing(Some(n))] == s.pc[n := Woken(owner)][t := Storing(Some(n))];
    Advance(s', t, Waker(s, t, n, owner));
  }

  lemma ReleaseLocks(s: State, t: Tid)
    requires Reachable(s) && t in s.pc && s.pc[t] == Holding && s.word == WithWaiters(t)
    ensures Reachable(At(s, t, Waking).(word := WaitersLocked(t), section := Some(t)))
  {
    var s1, s2 := At(s, t, ReleaseFast), At(s, t, ReleaseSlow(s.word));
    Advance(s, t, s1);
    AtTwice(s, t, ReleaseFast, ReleaseSlow(s.word));
    Advance(s1, t, s2);
    AtTwice(s, t, ReleaseSlow(s.word), Waking);
    Advance(s2, t, At(s, t, Waking).(word := WaitersLocked(t), section := Some(t)));
  }

  /** The woken owner finds itself named by the word. */
  lemma Acquires(s: State, t: Tid, owner: nat)
    requires Reachable(s) && t in s.pc && s.pc[t] == Woken(owner) && s.word == WithWaiters(t) && owner != t
    ensures Reachable(At(s, t, Holding))
  {
    Advance(s, t, At(s, t, Checking));
    AtTwice(s, t, Checking, Holding);
    Advance(At(s, t, Checking), t, At(s, t, Holding));
  }

  /** One thread holds the lock and another is parked behind it. */
  lemma OneParked(exact: bool, others: set<Tid>) returns (s: State)
    requires 4 !in others && 8 !in others
    ensures Reachable(s) && s.exact == exact && s.pc.Keys == {4, 8} + others
    ensures s.pc[4] == Holding && s.pc[8] == Parked(4) && forall t :: t in others ==> s.pc[t] == Outside
    ensures s.word == WithWaiters(4) && s.section == None && s.waiters == [8]
  {
    s := Init(exact, {4, 8} + others);
    ReachInit(exact, {4, 8} + others);
    Take(s, 4);
    s := Took(s, 4);
    Sleep(s, 8, 4);
    s := Slept(s, 8, 4);
  }

  /** With the decoder of the code a woken thread can panic on two cores: the word of the thread
      that hands it the lock decodes to an owner that does not exist, so it stops waiting too
      early. Here that thread is the very owner it queued behind. */
  lemma WakePanicsByDecoder() returns (s: State)
    ensures Reachable(s) && !s.exact && 8 in s.pc && Next(s, 8, false) == Panic(138)
    ensures s.section == Some(4) && 4 in s.pc && s.pc[4] == Storing(Some(8))
  {
    s := OneParked(false, {});
    WakeFirst(s, 4, 8, 4);
    s := StopsWaiting(Waker(s, 4, 8, 4));
  }

  lemma StopsWaiting(s: State) returns (s': State)
    requires Reachable(s) && !s.exact && 4 in s.pc && 8 in s.pc && s.pc[4] == Storing(Some(8)) && s.pc[8] == Woken(4)
    requires s.word == WaitersLocked(4) && s.section == Some(4)
    ensures Reachable(s') && !s'.exact && 8 in s'.pc && Next(s', 8, false) == Panic(138)
    ensures s'.section == Some(4) && 4 in s'.pc && s'.pc[4] == Storing(Some(8))
  {
    s' := At(s, 8, Checking);
    Advance(s, 8, s');
  }

  /** It can also panic when words are decoded exactly: it queued behind one owner, is woken by the
      next, and looks at the word before that owner has stored it. */
  lemma WakePanicsByOwner() returns (s: State)
    ensures Reachable(s) && s.exact && 12 in s.pc && Next(s, 12, false) == Panic(138)
  {
    s := OneParked(true, {12});
    Sleep(s, 12, 4);
    s := FirstHandOff(Slept(s, 12, 4));
    s := SecondHandOff(s);
  }

  lemma FirstHandOff(s: State) returns (s': State)
    requires Reachable(s) && s.exact && 4 in s.pc && 8 in s.pc && 12 in s.pc
    requires s.pc[4] == Holding && s.pc[8] == Parked(4) && s.pc[12] == Parked(4)
    requires s.word == WithWaiters(4) && s.waiters == [8, 12]
    ensures Reachable(s') && s'.exact && 8 in s'.pc && 12 in s'.pc && s'.pc[8] == Woken(4) && s'.pc[12] == Parked(4)
    ensures s'.word == WithWaiters(8) && s'.waiters == [12]
  {
    WakeFirst(s, 4, 8, 4);
    s' := Waker(s, 4, 8, 4);
    Advance(s', 4, Stored(s', 4, 8));
    s' := Stored(s', 4, 8);
  }

  lemma SecondHandOff(s: State) returns (s': State)
    requires Reachable(s) && s.exact && 8 in s.pc && 12 in s.pc && s.pc[8] == Woken(4) && s.pc[12] == Parked(4)
    requires s.word == WithWaiters(8) && s.waiters == [12]
    ensures Reachable(s') && s'.exact && 12 in s'.pc && Next(s', 12, false) == Panic(138)
  {
    Acquires(s, 8, 4);
    s' := At(s, 8, Holding);
    WakeFirst(s', 8, 12, 4);
    s' := Waker(s', 8, 12, 4);
    Advance(s', 12, At(s', 12, Checking));
    s' := At(s', 12, Checking);
  }

  /** With the decoder of the code the release can panic on two cores: the owner loads the word
      while another thread has the wait list locked, and does not recognise itself as the owner. */
  lemma ReleasePanics() returns (s: State)
    ensures Reachable(s) && !s.exact && 4 in s.pc && Next(s, 4, false) == Panic(213)
  {
    s := Init(false, {4, 8});
    ReachInit(false, {4, 8});
    Take(s, 4);
    s := Took(s, 4);
    LocksList(s, 8, 4);
    s := At(s, 8, Queueing(4)).(word := WaitersLocked(4), section := Some(8));
    s := LooksTooEarly(s);
  }

  lemma LooksTooEarly(s: State) returns (s': State)
    requires Reachable(s) && !s.exact && 4 in s.pc && s.pc[4] == Holding && s.word == WaitersLocked(4)
    ensures Reachable(s') && !s'.exact && 4 in s'.pc && Next(s', 4, false) == Panic(213)
  {
    s' := At(s, 4, ReleaseFast);
    Advance(s, 4, s');
    Advance(s', 4, At(s', 4, ReleaseSlow(WaitersLocked(6))));
    s' := At(s', 4, ReleaseSlow(WaitersLocked(6)));
  }
}
