/** Progress of the mutex: what a thread comes to by its own moves while no other is between its two
    accesses to the word, and that the lock can always become free again.
 */
module MutexProgress {
  import opened Basics
  import opened MutexProtocol

  /** A run of the threads in `ts` from one state to another. */
  ghost predicate Path(states: seq<State>, moves: seq<Move>, ts: set<Tid>) {
    && |states| == |moves| + 1
    && forall i :: 0 <= i < |moves| ==> Follows(states, moves, i) && moves[i].thread in ts
  }

  ghost predicate Leads(s: State, ts: set<Tid>, s': State) {
    exists states, moves :: Path(states, moves, ts) && states[0] == s && Last(states) == s'
  }

  lemma LeadsSelf(s: State, ts: set<Tid>)
    ensures Leads(s, ts, s)
  {
    assert Path([s], [], ts) && Last([s]) == s;
  }

  lemma LeadsOn(s: State, ts: set<Tid>, s1: State, t: Tid, s2: State)
    requires Leads(s, ts, s1) && t in ts && t in s1.pc && Next(s1, t, false) == Ok(s2)
    ensures Leads(s, ts, s2)
  {
    var states: seq<State>, moves: seq<Move> :| Path(states, moves, ts) && states[0] == s && Last(states) == s1;
    var states', moves' := states + [s2], moves + [Move(t, false)];
    forall i | 0 <= i < |moves'|
      ensures Follows(states', moves', i) && moves'[i].thread in ts
    {
      if i < |moves| {
        assert Follows(states, moves, i);
      }
    }
    assert Path(states', moves', ts) && states'[0] == s && Last(states') == s2;
  }

  lemma LeadsThrough(s: State, ts: set<Tid>, s1: State, us: set<Tid>, s2: State)
    requires Leads(s, ts, s1) && Leads(s1, us, s2)
    ensures Leads(s, ts + us, s2)
  {
    var states: seq<State>, moves: seq<Move> :| Path(states, moves, ts) && states[0] == s && Last(states) == s1;
    var states1: seq<State>, moves1: seq<Move> :| Path(states1, moves1, us) && states1[0] == s1 && Last(states1) == s2;
    var all, alls := states + states1[1..], moves + moves1;
    forall i | 0 <= i < |alls|
      ensures Follows(all, alls, i) && alls[i].thread in ts + us
    {
      if i < |moves| {
        assert Follows(states, moves, i);
      } else {
        assert Follows(states1, moves1, i - |moves|);
      }
    }
    assert Path(all, alls, ts + us) && all[0] == s && Last(all) == s2;
  }

  lemma Onwards(s: State, ts: set<Tid>, s1: State, s2: State)
    requires Leads(s, ts, s1) && Leads(s1, ts, s2)
    ensures Leads(s, ts, s2)
  {
    LeadsThrough(s, ts, s1, ts, s2);
    assert ts + ts == ts;
  }

  // ---- releasing ----

  /** What a release leaves: the lock is free if nobody waited, or else it is the first waiter's, who
      is awake. */
  ghost predicate Released(s: State, t: Tid, s': State) {
    && t in s'.pc && s'.pc[t] == Outside && s'.pc.Keys == s.pc.Keys && s'.section == None
    && if s.waiters == [] then
         s'.word == Unlocked && s'.waiters == [] && (forall u :: u in s.pc && u != t ==> s'.pc[u] == s.pc[u])
       else
         var n := s.waiters[0];
         && n != t && n in s'.pc && s'.pc[n].Woken? && s'.word == WithWaiters(n) && s'.waiters == s.waiters[1..]
         && (forall u :: u in s.pc && u != t && u != n ==> s'.pc[u] == s.pc[u])
  }

  /** A holder that releases gets outside by its own moves. */
  lemma ReleaseCompletes(s: State, t: Tid) returns (s': State)
    requires Inv(s) && t in s.pc && s.pc[t].Holding? && s.section == None
    ensures Leads(s, {t}, s') && Released(s, t, s') && Inv(s') && s'.exact == s.exact
  {
    assert ThreadOk(s, t);
    var s1 := At(s, t, ReleaseFast);
    StepKeeps(s, t, false);
    LeadsSelf(s, {t});
    LeadsOn(s, {t}, s, t, s1);
    StepKeeps(s1, t, false);
    if s.word == NoWaiters(t) {
      s' := At(s1, t, Outside).(word := Unlocked);
      LeadsOn(s, {t}, s1, t, s');
    } else {
      var s2 := At(s1, t, ReleaseSlow(s.word));
      LeadsOn(s, {t}, s1, t, s2);
      s' := SlowCompletes(s2, t);
      Onwards(s, {t}, s2, s');
    }
  }

  lemma SlowCompletes(s: State, t: Tid) returns (s': State)
    requires Inv(s) && t in s.pc && s.pc[t] == ReleaseSlow(WithWaiters(t)) && s.section == None
    ensures Leads(s, {t}, s') && Released(s, t, s') && Inv(s') && s'.exact == s.exact
  {
    assert ThreadOk(s, t);
    var s1 := At(s, t, Waking).(word := WaitersLocked(t), section := Some(t));
    StepKeeps(s, t, false);
    LeadsSelf(s, {t});
    LeadsOn(s, {t}, s, t, s1);
    s' := WakingCompletes(s1, t);
    Onwards(s, {t}, s1, s');
  }

  lemma WakingCompletes(s: State, t: Tid) returns (s': State)
    requires Inv(s) && t in s.pc && s.pc[t].Waking?
    ensures Leads(s, {t}, s') && Released(s, t, s') && Inv(s') && s'.exact == s.exact
  {
    StepKeeps(s, t, false);
    var s1 := Next(s, t, false).state;
    LeadsSelf(s, {t});
    LeadsOn(s, {t}, s, t, s1);
    TakesFirst(s, t);
    StepKeeps(s1, t, false);
    s' := Next(s1, t, false).state;
    LeadsOn(s, {t}, s1, t, s');
  }

  lemma TakesFirst(s: State, t: Tid)
    requires Inv(s) && t in s.pc && s.pc[t].Waking?
    ensures Next(s, t, false).Ok?
    ensures var s1 := Next(s, t, false).state;
            && t in s1.pc && s1.pc.Keys == s.pc.Keys
            && if s.waiters == [] then s1.pc == s.pc[t := Storing(None)] && s1.waiters == []
               else var n := s.waiters[0];
                    && n in s.pc && n != t && s.pc[n].Parked? && s1.waiters == s.waiters[1..]
                    && s1.pc == s.pc[n := Woken(s.pc[n].owner)][t := Storing(Some(n))]
  {
    if s.waiters != [] {
      FirstIsParked(s, t);
    }
  }

  /** And the waiter that was woken holds the lock by its own moves. */
  lemma WokenHolds(s: State, n: Tid)
    requires Inv(s) && n in s.pc && s.pc[n].Woken? && s.word.Owner() == Some(n) && s.section == None
    ensures Leads(s, {n}, At(s, n, Holding))
  {
    assert ThreadOk(s, n);
    LeadsSelf(s, {n});
    LeadsOn(s, {n}, s, n, At(s, n, Checking));
    AtTwice(s, n, Checking, Holding);
    LeadsOn(s, {n}, At(s, n, Checking), n, At(s, n, Holding));
  }

  // ---- acquiring ----

  /** A thread that acquires a free lock holds it by its own moves, wherever it is on its way. */
  lemma TakesFree(s: State, t: Tid)
    requires Inv(s) && t in s.pc && Neutral(s.pc[t]) && s.word == Unlocked
    ensures Leads(s, {t}, At(s, t, Holding).(word := NoWaiters(t)))
    ensures s.pc[t].Outside? ==> Next(s, t, true) == Ok(At(s, t, Holding).(word := NoWaiters(t)))
  {
    var last := At(s, t, Holding).(word := NoWaiters(t));
    LeadsSelf(s, {t});
    if s.pc[t].Outside? {
      LeadsOn(s, {t}, s, t, At(s, t, Fast));
      AtTwice(s, t, Fast, Holding);
      LeadsOn(s, {t}, At(s, t, Fast), t, last);
    } else if s.pc[t].Fast? || s.pc[t].seen.Unlocked? {
      LeadsOn(s, {t}, s, t, last);
    } else {
      LeadsOn(s, {t}, s, t, At(s, t, Slow(Unlocked)));
      AtTwice(s, t, Slow(Unlocked), Holding);
      LeadsOn(s, {t}, At(s, t, Slow(Unlocked)), t, last);
    }
  }

  /** One that acquires a lock that is held gets on the list, behind all others; one that tries to
      changes nothing. */
  lemma QueuesUp(s: State, t: Tid)
    requires Inv(s) && t in s.pc && Neutral(s.pc[t]) && s.section == None && s.word.Owner().Some?
    ensures Leads(s, {t}, Slept(s, t, s.word.owner))
    ensures s.pc[t].Outside? ==> Next(s, t, true) == Ok(s)
  {
    LooksAgain(s, t);
    var s1 := At(s, t, Slow(s.word));
    var owner := s.word.owner;
    var s2 := At(s, t, Queueing(owner)).(word := WaitersLocked(owner), section := Some(t));
    var s3 := At(s, t, Queued(owner)).(word := WaitersLocked(owner), section := Some(t), waiters := s.waiters + [t], arrived := s.arrived + [t]);
    AtTwice(s, t, Slow(s.word), Queueing(owner));
    LeadsOn(s, {t}, s1, t, s2);
    AtTwice(s, t, Queueing(owner), Queued(owner));
    LeadsOn(s, {t}, s2, t, s3);
    AtTwice(s, t, Queued(owner), Parked(owner));
    LeadsOn(s, {t}, s3, t, Slept(s, t, owner));
  }

  lemma LooksAgain(s: State, t: Tid)
    requires Inv(s) && t in s.pc && Neutral(s.pc[t]) && s.section == None && s.word.Owner().Some?
    ensures Leads(s, {t}, At(s, t, Slow(s.word)))
  {
    LeadsSelf(s, {t});
    if s.pc[t].Outside? {
      LeadsOn(s, {t}, s, t, At(s, t, Fast));
      AtTwice(s, t, Fast, Slow(s.word));
      LeadsOn(s, {t}, At(s, t, Fast), t, At(s, t, Slow(s.word)));
    } else if s.pc[t] == Slow(s.word) {
      assert At(s, t, Slow(s.word)) == s;
    } else {
      LeadsOn(s, {t}, s, t, At(s, t, Slow(s.word)));
    }
  }

  // ---- the lock can always become free ----

  /** No thread has read a garbled word: with the exact decoder none can, nor on one core. */
  ghost predicate Clear(s: State) {
    s.exact || forall t :: t in s.pc && s.pc[t].ReleaseSlow? ==> s.pc[t].seen == WithWaiters(t)
  }

  function Busy(s: State): set<Tid> {
    set t | t in s.pc && s.pc[t] != Outside
  }

  ghost predicate Quiet(s: State) {
    s.word == Unlocked && s.waiters == [] && s.section == None && forall t :: t in s.pc ==> s.pc[t] == Outside
  }

  /** The thread between its two accesses to the word gets to the second by its own moves. */
  lemma SectionEnds(s: State, t: Tid) returns (s': State)
    requires Inv(s) && Clear(s) && t in s.pc && s.section == Some(t)
    ensures Leads(s, {t}, s') && Inv(s') && Clear(s') && s'.section == None && s'.pc.Keys == s.pc.Keys && Busy(s') <= Busy(s)
  {
    assert ThreadOk(s, t);
    LeadsSelf(s, {t});
    StepKeeps(s, t, false);
    var s1 := Next(s, t, false).state;
    LeadsOn(s, {t}, s, t, s1);
    OwnStep(s, t);
    if s1.section == None {
      s' := s1;
    } else {
      s' := SecondAccess(s1, t);
      Onwards(s, {t}, s1, s');
    }
  }

  lemma SecondAccess(s: State, t: Tid) returns (s': State)
    requires Inv(s) && Clear(s) && t in s.pc && s.section == Some(t) && (s.pc[t].Queued? || s.pc[t].Storing?)
    ensures Leads(s, {t}, s') && Inv(s') && Clear(s') && s'.section == None && s'.pc.Keys == s.pc.Keys && Busy(s') <= Busy(s)
  {
    assert ThreadOk(s, t);
    StepKeeps(s, t, false);
    s' := Next(s, t, false).state;
    LeadsSelf(s, {t});
    LeadsOn(s, {t}, s, t, s');
    OwnStep(s, t);
  }

  lemma OwnStep(s: State, t: Tid)
    requires Inv(s) && Clear(s) && t in s.pc && s.section == Some(t) && Next(s, t, false).Ok?
    ensures var s' := Next(s, t, false).state;
            && Clear(s') && Busy(s') <= Busy(s)
            && (s'.section == None || (s'.section == Some(t) && t in s'.pc && (s'.pc[t].Queued? || s'.pc[t].Storing?)))
    ensures s.pc[t].Queued? || s.pc[t].Storing? ==> Next(s, t, false).state.section == None
  {
    assert ThreadOk(s, t);
    if s.pc[t].Waking? && s.waiters != [] {
      FirstIsParked(s, t);
    }
  }

  lemma LeadsMore(s: State, ts: set<Tid>, s': State, us: set<Tid>)
    requires Leads(s, ts, s') && ts <= us
    ensures Leads(s, us, s')
  {
    var states: seq<State>, moves: seq<Move> :| Path(states, moves, ts) && states[0] == s && Last(states) == s';
    assert Path(states, moves, us);
  }

  /** One operation of one thread after a run. */
  lemma LeadsAfter(s: State, ts: set<Tid>, s1: State, t: Tid, s2: State)
    requires Leads(s, ts, s1) && t in ts && Leads(s1, {t}, s2)
    ensures Leads(s, ts, s2)
  {
    LeadsThrough(s, ts, s1, {t}, s2);
    assert ts + {t} == ts;
  }

  lemma ReleasedLess(s: State, t: Tid, s': State)
    requires Inv(s) && t in s.pc && s.pc[t] != Outside && Released(s, t, s') && s'.exact == s.exact && Clear(s)
    ensures Clear(s') && Busy(s') == Busy(s) - {t}
  {
    if s.waiters != [] {
      assert s.waiters[0] in s.waiters && ThreadOk(s, s.waiters[0]);
    }
  }

  /** A thread that owns the lock gets outside by its own moves, wherever it is on its way. */
  lemma OwnerReleases(s: State, t: Tid) returns (s': State)
    requires Inv(s) && Clear(s) && t in s.pc && Owns(s.pc[t]) && s.section == None
    ensures Leads(s, {t}, s') && Released(s, t, s') && Inv(s') && s'.exact == s.exact
  {
    assert ThreadOk(s, t);
    LeadsSelf(s, {t});
    StepKeeps(s, t, false);
    if s.pc[t].Holding? {
      s' := ReleaseCompletes(s, t);
    } else if s.pc[t] == ReleaseSlow(WithWaiters(t)) {
      s' := SlowCompletes(s, t);
    } else {
      var s1 := Next(s, t, false).state;
      LeadsOn(s, {t}, s, t, s1);
      if s.pc[t].ReleaseFast? && s.word == NoWaiters(t) {
        s' := s1;
      } else {
        s' := SlowCompletes(s1, t);
        LeadsAfter(s, {t}, s1, t, s');
      }
    }
  }

  lemma HandedHolds(s: State, t: Tid)
    requires Inv(s) && t in s.pc && Handed(s.pc[t]) && s.word.Owner() == Some(t) && s.section == None
    ensures Leads(s, {t}, At(s, t, Holding)) && Inv(At(s, t, Holding))
  {
    HandedMove(s, t, Holding);
    if s.pc[t].Woken? {
      WokenHolds(s, t);
    } else {
      LeadsSelf(s, {t});
      LeadsOn(s, {t}, s, t, At(s, t, Holding));
    }
  }

  /** The owner of the lock, holding it or handed it, gets outside by its own moves. */
  lemma OwnerLeaves(s: State, t: Tid) returns (s': State)
    requires Inv(s) && Clear(s) && t in s.pc && s.section == None && s.word.Owner() == Some(t)
    ensures Leads(s, {t}, s') && Inv(s') && Clear(s') && s'.section == None && s'.pc.Keys == s.pc.Keys
    ensures t in Busy(s) && Busy(s') == Busy(s) - {t}
  {
    var s1 := OwnerHolds(s, t);
    s' := OwnerReleases(s1, t);
    LeadsAfter(s, {t}, s1, t, s');
    ReleasedLess(s1, t, s');
  }

  lemma OwnerHolds(s: State, t: Tid) returns (s1: State)
    requires Inv(s) && Clear(s) && t in s.pc && s.section == None && s.word.Owner() == Some(t)
    ensures Leads(s, {t}, s1) && Inv(s1) && Clear(s1) && s1.section == None && s1.pc.Keys == s.pc.Keys
    ensures t in Busy(s) && Busy(s1) == Busy(s) && Owns(s1.pc[t])
  {
    s1 := s;
    LeadsSelf(s, {t});
    if Handed(s.pc[t]) {
      HandedHolds(s, t);
      s1 := At(s, t, Holding);
    }
  }

  /** While the lock is free every thread is outside or on its way to acquire it. */
  lemma FreeIsNeutral(s: State, t: Tid)
    requires Inv(s) && s.section == None && s.word == Unlocked && t in s.pc
    ensures Neutral(s.pc[t]) && s.waiters == []
  {
    assert ThreadOk(s, t);
  }

  lemma {:induction false} QuietFrom(s: State) returns (s': State)
    requires Inv(s) && Clear(s) && s.section == None
    ensures Leads(s, s.pc.Keys, s') && Quiet(s')
    decreases |Busy(s)|
  {
    LeadsSelf(s, s.pc.Keys);
    var s1 := s;
    if s.word == Unlocked {
      NobodyBusy(s);
      if Busy(s) == {} {
        return s;
      }
      var t :| t in Busy(s);
      s1 := TakesAndLeaves(s, t);
      LeadsMore(s, {t}, s1, s.pc.Keys);
    } else {
      var t: Tid := s.word.owner;
      s1 := OwnerLeaves(s, t);
      LeadsMore(s, {t}, s1, s.pc.Keys);
    }
    s' := QuietFrom(s1);
    Onwards(s, s.pc.Keys, s1, s');
  }

  lemma NobodyBusy(s: State)
    requires Inv(s) && s.section == None && s.word == Unlocked
    ensures Busy(s) == {} ==> Quiet(s)
  {
    assert forall t :: t in s.pc && s.pc[t] != Outside ==> t in Busy(s);
  }

  lemma TakesAndLeaves(s: State, t: Tid) returns (s': State)
    requires Inv(s) && Clear(s) && s.section == None && s.word == Unlocked && t in Busy(s)
    ensures Leads(s, {t}, s') && Inv(s') && Clear(s') && s'.section == None && s'.pc.Keys == s.pc.Keys
    ensures Busy(s') == Busy(s) - {t}
  {
    FreeIsNeutral(s, t);
    TakesFree(s, t);
    TakeFree(s, t);
    var s1 := At(s, t, Holding).(word := NoWaiters(t));
    assert Busy(s1) == Busy(s);
    s' := OwnerLeaves(s1, t);
    LeadsAfter(s, {t}, s1, t, s');
  }

  /** In no interleaving does the lock get stuck: from every state that can be reached with the exact
      decoder there is a run after which it is free and all threads are outside. */
  lemma NeverStuck(states: seq<State>, moves: seq<Move>, n: nat) returns (s': State)
    requires IsRun(states, moves) && states[0].exact && n < |states|
    ensures Leads(states[n], states[n].pc.Keys, s') && Quiet(s')
  {
    RunKeeps(states, moves, n);
    s' := Settles(states[n]);
  }

  lemma Settles(s: State) returns (s': State)
    requires Inv(s) && Clear(s)
    ensures Leads(s, s.pc.Keys, s') && Quiet(s')
  {
    if s.section == None {
      s' := QuietFrom(s);
    } else {
      var t: Tid := s.section.value;
      var s1 := SectionEnds(s, t);
      LeadsMore(s, {t}, s1, s.pc.Keys);
      s' := QuietFrom(s1);
      Onwards(s, s.pc.Keys, s1, s');
    }
  }

  /** Nor does it on one core, with the decoder of the code. */
  lemma NeverStuckOnOneCore(states: seq<State>, moves: seq<Move>, n: nat) returns (s': State)
    requires OneCoreRun(states, moves) && n < |states|
    ensures Leads(states[n], states[n].pc.Keys, s') && Quiet(s')
  {
    RunKeeps(states, moves, n);
    OneCoreRunKeeps(states, moves, n);
    s' := Settles(states[n]);
  }
}
