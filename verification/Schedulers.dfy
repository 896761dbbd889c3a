/** The scheduler as it keeps its queues: links inside the thread records, rewritten in place.
 */
module Schedulers {
  import opened Basics
  import opened IntrusiveQueues
  import opened Scheduling

  // ---- what the links represent ----

  ghost predicate OnList(waiting: map<ListId, seq<Ptr>>, t: Ptr) {
    exists w :: w in waiting && t in waiting[w]
  }

  /** No thread is on two lists. */
  ghost predicate OneList(waiting: map<ListId, seq<Ptr>>) {
    forall v, w, t :: v in waiting && w in waiting && t in waiting[v] && t in waiting[w] ==> v == w
  }

  /** The wait states of all threads, shared by all wait lists. */
  ghost predicate WaitRep(l: Links, valid: map<Ptr, bool>, lists: map<ListId, Ends>, waiting: map<ListId, seq<Ptr>>) {
    && lists.Keys == waiting.Keys
    && OneList(waiting)
    && (forall w :: w in lists ==> IsQueue(l, lists[w], waiting[w]))
    && l.Keys == valid.Keys
    && (forall t :: t in valid ==> (valid[t] <==> OnList(waiting, t)))
  }

  /** The ready queue; a thread that is not on it has null links. */
  ghost predicate ReadyRep(l: Links, e: Ends, q: seq<Ptr>) {
    IsQueue(l, e, q) && forall t :: t in l && t !in q ==> l[t] == Link(Null, Null)
  }

  lemma TailIn(l: Links, e: Ends, q: seq<Ptr>)
    requires IsQueue(l, e, q)
    ensures e.tail != Null ==> e.tail in q && e.tail in l
    ensures e.tail == Null <==> q == []
    ensures e.head == Null <==> q == []
    ensures q != [] ==> e.head == q[0] && q[0] in l && l[q[0]].next == After(q, 0)
  {
    if q != [] {
      assert LinkedAt(l, q, |q| - 1) && LinkedAt(l, q, 0);
      assert q[0] in q && q[|q| - 1] in q;
    }
  }

  lemma AllIn(l: Links, e: Ends, q: seq<Ptr>, t: Ptr)
    requires IsQueue(l, e, q) && t in q
    ensures t in l
  {
    var i := IndexOf(q, t);
    assert LinkedAt(l, q, i);
  }

  lemma WaitPush(l: Links, valid: map<Ptr, bool>, lists: map<ListId, Ends>, waiting: map<ListId, seq<Ptr>>, w: ListId, t: Ptr)
    requires WaitRep(l, valid, lists, waiting) && w in lists && t in valid && t != Null && !valid[t]
    requires lists[w].tail != Null ==> lists[w].tail in l
    ensures WaitRep(PushLinks(l, lists[w], t), valid[t := true],
                    lists[w := Ends(if lists[w].head == Null then t else lists[w].head, t)], waiting[w := waiting[w] + [t]])
  {
    assert t !in waiting[w];
    TailIn(l, lists[w], waiting[w]);
    PushBack(l, lists[w], waiting[w], t);
    WaitPushOthers(l, valid, lists, waiting, w, t);
    WaitPushFlags(valid, waiting, w, t);
  }

  lemma WaitPushOthers(l: Links, valid: map<Ptr, bool>, lists: map<ListId, Ends>, waiting: map<ListId, seq<Ptr>>, w: ListId, t: Ptr)
    requires WaitRep(l, valid, lists, waiting) && w in lists && t in valid && !valid[t]
    requires lists[w].tail != Null ==> lists[w].tail in l && lists[w].tail in waiting[w]
    ensures forall v :: v in lists && v != w ==> IsQueue(PushLinks(l, lists[w], t), lists[v], waiting[v])
  {
    var l' := PushLinks(l, lists[w], t);
    forall v | v in lists && v != w
      ensures IsQueue(l', lists[v], waiting[v])
    {
      assert t !in waiting[v];
      forall x | x in waiting[v]
        ensures x in l' && (x in l ==> l'[x] == l[x])
      {
        AllIn(l, lists[v], waiting[v], x);
      }
      Frame(l, l', lists[v], waiting[v]);
    }
  }

  lemma WaitPushFlags(valid: map<Ptr, bool>, waiting: map<ListId, seq<Ptr>>, w: ListId, t: Ptr)
    requires OneList(waiting) && w in waiting && !OnList(waiting, t)
    requires forall x :: x in valid ==> (valid[x] <==> OnList(waiting, x))
    ensures var waiting' := waiting[w := waiting[w] + [t]];
            OneList(waiting') && forall x :: x in valid ==> (valid[t := true][x] <==> OnList(waiting', x))
  {
    var waiting' := waiting[w := waiting[w] + [t]];
    assert forall v :: v in waiting ==> t !in waiting[v];
    assert t in waiting'[w];
    forall x | x in valid
      ensures valid[t := true][x] <==> OnList(waiting', x)
    {
      if OnList(waiting, x) {
        var v :| v in waiting && x in waiting[v];
        assert x in waiting'[v];
      }
    }
  }

  /** The links and flags after the first thread of a list is taken off it. */
  function PopLinks(l: Links, next: Ptr): Links
    requires next != Null ==> next in l
  {
    if next == Null then l else l[next := l[next].(prev := Null)]
  }

  lemma WaitPop(l: Links, valid: map<Ptr, bool>, lists: map<ListId, Ends>, waiting: map<ListId, seq<Ptr>>, w: ListId)
    requires WaitRep(l, valid, lists, waiting) && w in lists && waiting[w] != []
    ensures var q, e := waiting[w], lists[w];
            && e.head == q[0] && e.head in l && valid[e.head]
            && var next := l[e.head].next;
            && (next != Null ==> next in l)
            && WaitRep(PopLinks(l, next), valid[e.head := false],
                       lists[w := Ends(next, if next == Null then Null else e.tail)], waiting[w := q[1..]])
  {
    var q, e := waiting[w], lists[w];
    TailIn(l, e, q);
    var t := q[0];
    assert t in q && OnList(waiting, t);
    var next := l[t].next;
    if |q| > 1 {
      assert q[1] in q;
      AllIn(l, e, q, q[1]);
    }
    var l' := PopLinks(l, next);
    forall i | 1 <= i < |q|
      ensures q[i] in l && q[i] in l' && l'[q[i]] == (if i == 1 then Link(Null, l[q[i]].next) else l[q[i]])
    {
      assert LinkedAt(l, q, i);
    }
    PopFront(l, e, q, l');
    WaitPopOthers(l, valid, lists, waiting, w, l', next);
    WaitPopFlags(l, valid, lists, waiting, w);
  }

  lemma WaitPopOthers(l: Links, valid: map<Ptr, bool>, lists: map<ListId, Ends>, waiting: map<ListId, seq<Ptr>>, w: ListId, l': Links, next: Ptr)
    requires WaitRep(l, valid, lists, waiting) && w in lists
    requires next != Null ==> next in l && next in waiting[w]
    requires l' == PopLinks(l, next)
    ensures forall v :: v in lists && v != w ==> IsQueue(l', lists[v], waiting[v])
  {
    forall v | v in lists && v != w
      ensures IsQueue(l', lists[v], waiting[v])
    {
      forall x | x in waiting[v]
        ensures x in l' && (x in l ==> l'[x] == l[x])
      {
        AllIn(l, lists[v], waiting[v], x);
      }
      Frame(l, l', lists[v], waiting[v]);
    }
  }

  lemma WaitPopFlags(l: Links, valid: map<Ptr, bool>, lists: map<ListId, Ends>, waiting: map<ListId, seq<Ptr>>, w: ListId)
    requires WaitRep(l, valid, lists, waiting) && w in lists && waiting[w] != []
    ensures var q := waiting[w]; var waiting' := waiting[w := q[1..]];
            && OneList(waiting')
            && (forall x :: x in valid ==> (valid[q[0] := false][x] <==> OnList(waiting', x)))
  {
    var q := waiting[w];
    var t := q[0];
    var waiting' := waiting[w := q[1..]];
    assert t in q;
    assert forall u :: u in q <==> u == t || u in q[1..];
    assert IsQueue(l, lists[w], q);
    assert t !in q[1..];
    assert forall v, x :: v in waiting' && x in waiting'[v] ==> x in waiting[v] && x != t;
    forall x | x in valid
      ensures valid[t := false][x] <==> OnList(waiting', x)
    {
      if x != t && OnList(waiting, x) {
        var v :| v in waiting && x in waiting[v];
        assert x in waiting'[v];
      }
    }
  }

  lemma ReadyPush(l: Links, e: Ends, q: seq<Ptr>, t: Ptr)
    requires ReadyRep(l, e, q) && t in l && t != Null && t !in q
    requires e.tail != Null ==> e.tail in l
    ensures ReadyRep(PushLinks(l, e, t), Ends(if e.head == Null then t else e.head, t), q + [t])
  {
    TailIn(l, e, q);
    PushBack(l, e, q, t);
  }

  lemma ReadyPop(l: Links, e: Ends, q: seq<Ptr>)
    requires ReadyRep(l, e, q) && q != []
    ensures e.head == q[0] && q[0] in l && (l[q[0]].next != Null ==> l[q[0]].next in l)
    ensures var next := l[q[0]].next;
            ReadyRep(PopLinks(l, next)[q[0] := Link(Null, Null)], Ends(next, if next == Null then Null else e.tail), q[1..])
  {
    TailIn(l, e, q);
    var next := l[q[0]].next;
    if |q| > 1 {
      assert LinkedAt(l, q, 1);
    }
    var l' := PopLinks(l, next)[q[0] := Link(Null, Null)];
    forall i | 1 <= i < |q|
      ensures q[i] in l && q[i] in l' && l'[q[i]] == (if i == 1 then Link(Null, l[q[i]].next) else l[q[i]])
    {
      assert LinkedAt(l, q, i);
    }
    PopFront(l, e, q, l');
    assert forall u :: u in q <==> u == q[0] || u in q[1..];
  }

  lemma NeighboursLinked(l: Links, e: Ends, q: seq<Ptr>, i: nat)
    requires IsQueue(l, e, q) && i < |q|
    ensures q[i] in l
    ensures l[q[i]].next != Null ==> l[q[i]].next in l && l[q[i]].next != q[i]
    ensures l[q[i]].prev != Null ==> l[q[i]].prev in l && l[q[i]].prev != q[i]
    ensures l[q[i]].next != Null && l[q[i]].prev != Null ==> l[q[i]].prev != l[q[i]].next
    ensures l[q[i]].next == Null <==> i + 1 == |q|
    ensures l[q[i]].prev == Null <==> i == 0
  {
    assert LinkedAt(l, q, i);
    if i + 1 < |q| {
      assert LinkedAt(l, q, i + 1) && q[i + 1] in q;
    }
    if i > 0 {
      assert LinkedAt(l, q, i - 1) && q[i - 1] in q;
    }
  }

  /** The links once the neighbours of `t` are linked to each other and its own are cleared. */
  function TakenLinks(l: Links, t: Ptr): Links
    requires t in l && (l[t].next != Null ==> l[t].next in l) && (l[t].prev != Null ==> l[t].prev in l)
  {
    var next, prev := l[t].next, l[t].prev;
    var l1 := if next != Null then l[next := l[next].(prev := prev)] else l;
    var l2 := if prev != Null then l1[prev := l1[prev].(next := next)] else l1;
    l2[t := Link(Null, Null)]
  }

  function TakenEnds(l: Links, e: Ends, t: Ptr): Ends
    requires t in l
  {
    Ends(if l[t].prev == Null then l[t].next else e.head, if l[t].next == Null then l[t].prev else e.tail)
  }

  /** Exactly the neighbours of the element at `i` have changed. */
  lemma TakenAt(l: Links, e: Ends, q: seq<Ptr>, i: nat, j: nat)
    requires IsQueue(l, e, q) && i < |q| && q[i] in l && j < |q| && j != i
    requires (l[q[i]].next != Null ==> l[q[i]].next in l) && (l[q[i]].prev != Null ==> l[q[i]].prev in l)
    ensures var l' := TakenLinks(l, q[i]);
            q[j] in l && q[j] in l' && l'[q[j]] == Link(if j == i + 1 then l[q[i]].prev else l[q[j]].prev,
                                                        if j + 1 == i then l[q[i]].next else l[q[j]].next)
  {
    assert LinkedAt(l, q, i) && LinkedAt(l, q, j);
    assert q[j] in q;
  }

  lemma Taken(l: Links, e: Ends, q: seq<Ptr>, t: Ptr)
    requires IsQueue(l, e, q) && t in q && t in l
    ensures (l[t].next != Null ==> l[t].next in l) && (l[t].prev != Null ==> l[t].prev in l)
    ensures IsQueue(TakenLinks(l, t), TakenEnds(l, e, t), Drop(q, t))
    ensures TakenLinks(l, t).Keys == l.Keys
  {
    var i := IndexOf(q, t);
    NeighboursLinked(l, e, q, i);
    DropIs(q, t, i);
    TakenOthers(l, e, q, i);
    Unlink(l, e, q, i, TakenLinks(l, t));
    assert LinkedAt(l, q, i);
  }

  lemma TakenOthers(l: Links, e: Ends, q: seq<Ptr>, i: nat)
    requires IsQueue(l, e, q) && i < |q| && q[i] in l
    requires (l[q[i]].next != Null ==> l[q[i]].next in l) && (l[q[i]].prev != Null ==> l[q[i]].prev in l)
    ensures var l' := TakenLinks(l, q[i]);
            && l'.Keys == l.Keys
            && forall j :: 0 <= j < |q| && j != i ==>
                 q[j] in l && q[j] in l' && l'[q[j]] == Link(if j == i + 1 then l[q[i]].prev else l[q[j]].prev,
                                                             if j + 1 == i then l[q[i]].next else l[q[j]].next)
  {
    var l' := TakenLinks(l, q[i]);
    forall j | 0 <= j < |q| && j != i
      ensures q[j] in l && q[j] in l' && l'[q[j]] == Link(if j == i + 1 then l[q[i]].prev else l[q[j]].prev,
                                              if j + 1 == i then l[q[i]].next else l[q[j]].next)
    {
      TakenAt(l, e, q, i, j);
    }
  }

  // A new thread's records, and a new list, change no queue.

  lemma ReadyRecord(l: Links, e: Ends, q: seq<Ptr>, t: Ptr)
    requires ReadyRep(l, e, q) && t !in l
    ensures ReadyRep(l[t := Link(Null, Null)], e, q)
  {
    forall x | x in q
      ensures x in l
    {
      AllIn(l, e, q, x);
    }
    Frame(l, l[t := Link(Null, Null)], e, q);
  }

  lemma WaitRecord(l: Links, valid: map<Ptr, bool>, lists: map<ListId, Ends>, waiting: map<ListId, seq<Ptr>>, t: Ptr)
    requires WaitRep(l, valid, lists, waiting) && t !in l
    ensures WaitRep(l[t := Link(Null, Null)], valid[t := false], lists, waiting)
  {
    forall w | w in lists
      ensures IsQueue(l[t := Link(Null, Null)], lists[w], waiting[w]) && t !in waiting[w]
    {
      forall x | x in waiting[w]
        ensures x in l
      {
        AllIn(l, lists[w], waiting[w], x);
      }
      Frame(l, l[t := Link(Null, Null)], lists[w], waiting[w]);
    }
  }

  lemma WaitNewList(l: Links, valid: map<Ptr, bool>, lists: map<ListId, Ends>, waiting: map<ListId, seq<Ptr>>, w: ListId)
    requires WaitRep(l, valid, lists, waiting) && w !in waiting
    ensures WaitRep(l, valid, lists[w := Ends(Null, Null)], waiting[w := []])
  {
    var waiting' := waiting[w := []];
    forall t | t in valid
      ensures valid[t] <==> OnList(waiting', t)
    {
      if OnList(waiting, t) {
        var v :| v in waiting && t in waiting[v];
        assert t in waiting'[v];
      }
    }
  }

  // ---- the three kinds of list ----

  /** The list of the threads of the process. */
  class ThreadList {
    var links: Links
    var ends: Ends
    ghost var q: seq<Ptr>

    ghost predicate Valid()
      reads this
    {
      forall k: nat {:trigger Look(k)} :: Look(k) ==> IsQueue(links, ends, q)
    }

    constructor ()
      ensures Valid() && q == [] && links == map[]
    {
      links, ends, q := map[], Ends(Null, Null), [];
    }

    method Add(t: Ptr)
      requires Valid() && t !in links && t != Null
      modifies this
      ensures Valid() && q == old(q) + [t] && links.Keys == old(links.Keys) + {t}
    {
      assert Look(0);
      TailIn(links, ends, q);
      if t in q {
        AllIn(links, ends, q, t);
      }
      PushBack(links, ends, q, t);
      var l, e := links[t := Link(ends.tail, Null)], ends;
      if e.head == Null {
        e := e.(head := t);
      } else {
        l := l[e.tail := l[e.tail].(next := t)];
      }
      links, ends := l, e.(tail := t);
      q := q + [t];
    }

    method Remove(t: Ptr)
      requires Valid() && t in q
      modifies this
      ensures Valid() && q == Drop(old(q), t) && links.Keys == old(links.Keys)
    {
      assert Look(0);
      AllIn(links, ends, q, t);
      Taken(links, ends, q, t);
      var l, e := links, ends;
      var next, prev := l[t].next, l[t].prev;
      if next != Null {
        l := l[next := l[next].(prev := prev)];
      } else {
        e := e.(tail := prev);
      }
      if prev != Null {
        l := l[prev := l[prev].(next := next)];
      } else {
        e := e.(head := next);
      }
      links, ends := l[t := Link(Null, Null)], e;
      q := Drop(q, t);
    }
  }

  /** The queue of the ready threads of the process. */
  class ReadyQueue {
    var links: Links
    var ends: Ends
    ghost var q: seq<Ptr>

    ghost predicate Valid()
      reads this
    {
      forall k: nat {:trigger Look(k)} :: Look(k) ==> ReadyRep(links, ends, q)
    }

    /** An empty queue, and the record of one thread. */
    constructor (t: Ptr)
      ensures Valid() && q == [] && links.Keys == {t}
    {
      links, ends, q := map[t := Link(Null, Null)], Ends(Null, Null), [];
    }

    method AddRecord(t: Ptr)
      requires Valid() && t !in links
      modifies this
      ensures Valid() && q == old(q) && links.Keys == old(links.Keys) + {t}
    {
      assert Look(0);
      ReadyRecord(links, ends, q, t);
      links := links[t := Link(Null, Null)];
    }

    /** Puts a thread at the back. */
    method Enqueue(t: Ptr)
      requires Valid() && t in links && t != Null && t !in q
      modifies this
      ensures Valid() && q == old(q) + [t] && links.Keys == old(links.Keys)
    {
      assert Look(0);
      TailIn(links, ends, q);
      ReadyPush(links, ends, q, t);
      var l, e := links[t := links[t].(next := Null)], ends;
      if e.tail != Null {
        l := l[t := l[t].(prev := e.tail)];
        l := l[e.tail := l[e.tail].(next := t)];
      } else {
        l := l[t := l[t].(prev := Null)];
        e := e.(head := t);
      }
      assert l == PushLinks(links, ends, t);
      links, ends := l, e.(tail := t);
      q := q + [t];
    }

    /** Takes the thread at the front, if there is one. */
    method Dequeue() returns (r: Option<Ptr>)
      requires Valid()
      modifies this
      ensures Valid() && links.Keys == old(links.Keys)
      ensures r == if old(q) == [] then None else Some(old(q)[0])
      ensures q == if old(q) == [] then [] else old(q)[1..]
      ensures r.Some? ==> r.value in links
    {
      assert Look(0);
      TailIn(links, ends, q);
      if ends.head == Null {
        return None;
      }
      ReadyPop(links, ends, q);
      var t := ends.head;
      var l, e := links, ends;
      var next := l[t].next;
      if next != Null {
        l := l[next := l[next].(prev := Null)];
        e := e.(head := next);
      } else {
        e := Ends(Null, Null);
      }
      links, ends := l[t := Link(Null, Null)], e;
      q := q[1..];
      r := Some(t);
    }
  }

  /** All wait lists. A thread has one wait state, whichever list it is on. */
  class WaitLists {
    var links: Links
    var valid: map<Ptr, bool>
    var lists: map<ListId, Ends>
    ghost var waiting: map<ListId, seq<Ptr>>

    ghost predicate Valid()
      reads this
    {
      forall k: nat {:trigger Look(k)} :: Look(k) ==> WaitRep(links, valid, lists, waiting)
    }

    /** No lists, and the record of one thread. */
    constructor (t: Ptr)
      ensures Valid() && waiting == map[] && links.Keys == {t}
    {
      links, valid, lists, waiting := map[t := Link(Null, Null)], map[t := false], map[], map[];
    }

    method AddRecord(t: Ptr)
      requires Valid() && t !in links
      modifies this
      ensures Valid() && waiting == old(waiting) && links.Keys == old(links.Keys) + {t}
    {
      assert Look(0);
      WaitRecord(links, valid, lists, waiting, t);
      links, valid := links[t := Link(Null, Null)], valid[t := false];
    }

    method AddList(w: ListId)
      requires Valid() && w !in waiting
      modifies this
      ensures Valid() && waiting == old(waiting)[w := []] && links.Keys == old(links.Keys)
    {
      assert Look(0);
      WaitNewList(links, valid, lists, waiting, w);
      lists := lists[w := Ends(Null, Null)];
      waiting := waiting[w := []];
    }

    /** Puts a thread at the back of a list. The flag checked first is not set, since the thread
        is on no list. */
    method Enqueue(w: ListId, t: Ptr)
      requires Valid() && w in waiting && t in links && t != Null && !OnList(waiting, t)
      modifies this
      ensures Valid() && waiting == old(waiting)[w := old(waiting)[w] + [t]] && links.Keys == old(links.Keys)
    {
      assert Look(0);
      assert !valid[t];
      TailIn(links, lists[w], waiting[w]);
      WaitPush(links, valid, lists, waiting, w, t);
      var l, e := links[t := Link(lists[w].tail, Null)], lists[w];
      if e.tail == Null {
        e := e.(head := t);
      } else {
        l := l[e.tail := l[e.tail].(next := t)];
      }
      links, valid, lists := l, valid[t := true], lists[w := e.(tail := t)];
      waiting := waiting[w := waiting[w] + [t]];
    }

    /** Takes the first thread off a list. The flag checked on it is set. */
    method Dequeue(w: ListId) returns (r: Option<Ptr>)
      requires Valid() && w in waiting
      modifies this
      ensures Valid() && links.Keys == old(links.Keys)
      ensures r == if old(waiting)[w] == [] then None else Some(old(waiting)[w][0])
      ensures waiting == if r.None? then old(waiting) else old(waiting)[w := old(waiting)[w][1..]]
    {
      assert Look(0);
      TailIn(links, lists[w], waiting[w]);
      var e := lists[w];
      if e.head == Null {
        return None;
      }
      WaitPop(links, valid, lists, waiting, w);
      var t := e.head;
      assert valid[t];
      var l := links;
      e := e.(head := l[t].next);
      if e.head == Null {
        e := e.(tail := Null);
      } else {
        l := l[e.head := l[e.head].(prev := Null)];
      }
      links, valid, lists := l, valid[t := false], lists[w := e];
      waiting := waiting[w := waiting[w][1..]];
      r := Some(t);
    }
  }

  // ---- the scheduler ----

  /** The thread that runs is on no queue. */
  lemma CurrentOnNoQueue(a: Sched)
    requires Placed(a) && a.current.Some?
    ensures var t := a.current.value;
            t in a.state && t != Null && t !in a.ready && t in a.threads && !OnList(a.waiting, t)
  {
    CurrentIsLoose(a);
  }

  /** What waking all comes to after the first thread of the list was dealt with. */
  lemma WakeAllStep(a: Sched, w: ListId)
    requires w in a.waiting
    ensures var q := a.waiting[w];
            if q == [] then WakeAll(a, w) == (a, 0)
            else
              var woken := Alive(a, q[0]);
              var b := if woken then MakeReady(Dequeued(a, w), q[0]) else Dequeued(a, w);
              w in b.waiting && |b.waiting[w]| < |q|
              && WakeAll(a, w).0 == WakeAll(b, w).0 && WakeAll(a, w).1 == WakeAll(b, w).1 + if woken then 1 else 0
  {
  }

  class Scheduler {
    var state: map<Ptr, ThreadState>
    var current: Option<Ptr>
    const threads: ThreadList
    const ready: ReadyQueue
    const waits: WaitLists

    ghost function Abs(): Sched
      reads this, threads, ready, waits
    {
      Sched(state, threads.q, ready.q, waits.waiting, current)
    }

    ghost predicate Linked()
      reads this, threads, ready, waits
    {
      && threads.Valid() && ready.Valid() && waits.Valid()
      && state.Keys == threads.links.Keys == ready.links.Keys == waits.links.Keys
    }

    ghost predicate Valid()
      reads this, threads, ready, waits
    {
      Linked() && Good(Abs())
    }

    /** The init thread runs from the start. */
    constructor (init: Ptr)
      requires init != Null
      ensures Valid() && Abs() == Boot(init) && fresh(threads) && fresh(ready) && fresh(waits)
    {
      var ts := new ThreadList();
      ts.Add(init);
      var rs := new ReadyQueue(init);
      var ws := new WaitLists(init);
      threads, ready, waits := ts, rs, ws;
      state, current := map[init := Running], Some(init);
      BootGood(init);
    }

    method CreateThread(t: Ptr)
      requires Valid() && t !in state && t != Null
      modifies this, threads, ready, waits
      ensures Valid() && Abs() == Create(old(Abs()), t)
    {
      CreateKeeps(Abs(), t);
      state := state[t := Suspended];
      ready.AddRecord(t);
      waits.AddRecord(t);
      threads.Add(t);
    }

    method MakeList(w: ListId)
      requires Valid() && w !in waits.waiting
      modifies waits
      ensures Valid() && Abs() == NewList(old(Abs()), w)
    {
      NewListKeeps(Abs(), w);
      waits.AddList(w);
    }

    /** Wakes a suspended thread; the source panics when it is in any other state. */
    method Wake(t: Ptr) returns (ok: bool)
      requires Valid() && t in state
      modifies this, ready
      ensures Valid()
      ensures ok <==> old(Abs()).state[t] == Suspended
      ensures Abs() == if ok then MakeReady(old(Abs()), t) else old(Abs())
    {
      if state[t] != Suspended {
        return false;
      }
      SuspendedIsLoose(Abs(), t);
      MakeReadyKeeps(Abs(), t);
      state := state[t := Ready];
      ready.Enqueue(t);
      ok := true;
    }

    /** Runs the first ready thread, or idles. A thread that gave up the core while it can still
        run goes to the back of the queue first. */
    method PerformContextSwitch(was: Option<Ptr>)
      requires Linked()
      requires was.Some? ==> was.value in state && was.value != Null && was.value !in ready.q
      modifies this, ready
      ensures Linked()
      ensures Abs() == Switch(if was.Some? && old(Abs()).state[was.value] == Ready
                              then old(Abs()).(ready := old(Abs()).ready + [was.value]) else old(Abs()))
    {
      if was.Some? && state[was.value] == Ready {
        ready.Enqueue(was.value);
      }
      var next := ready.Dequeue();
      if next.Some? {
        state := state[next.value := Running];
      }
      current := next;
    }

    method YieldCurrent()
      requires Valid() && current.Some?
      modifies this, ready
      ensures Valid() && Abs() == Yield(old(Abs()))
    {
      YieldKeeps(Abs());
      CurrentOnNoQueue(Abs());
      var t := current.value;
      state := state[t := Ready];
      PerformContextSwitch(Some(t));
    }

    /** Puts the running thread on a wait list and switches. */
    method WaitOn(w: ListId)
      requires Valid() && current.Some? && w in waits.waiting
      modifies this, ready, waits
      ensures Valid() && Abs() == Wait(old(Abs()), w)
    {
      WaitKeeps(Abs(), w);
      CurrentOnNoQueue(Abs());
      var t := current.value;
      SetState(t, Waiting(w));
      waits.Enqueue(w, t);
      PerformContextSwitch(Some(t));
    }

    method SetState(t: Ptr, st: ThreadState)
      requires Linked() && t in state
      modifies this
      ensures Linked() && state == old(state)[t := st] && current == old(current)
    {
      state := state[t := st];
      assert state.Keys == old(state.Keys);
    }

    /** A dead thread is passed over; a waiting one goes through suspended to ready. The source
        panics in any other state, which cannot be. */
    method TryWake(w: ListId, t: Ptr) returns (woken: bool)
      requires Linked() && t in state && t != Null && t !in ready.q && (state[t] == Dead || state[t] == Waiting(w))
      modifies this, ready
      ensures Linked() && woken == (old(Abs()).state[t] != Dead)
      ensures Abs() == if woken then MakeReady(old(Abs()), t) else old(Abs())
    {
      if state[t] == Dead {
        return false;
      }
      SetState(t, Suspended);
      SetState(t, Ready);
      ready.Enqueue(t);
      woken := true;
    }

    /** Takes the first thread off a list and tries to wake it. */
    method WakeNext(w: ListId) returns (r: Option<Ptr>, woken: bool)
      requires Linked() && Placed(Abs()) && w in waits.waiting
      modifies this, ready, waits
      ensures Linked() && Placed(Abs()) && w in waits.waiting
      ensures var q := old(Abs()).waiting[w];
              && r == (if q == [] then None else Some(q[0]))
              && woken == (q != [] && Alive(old(Abs()), q[0]))
              && Abs() == if woken then MakeReady(Dequeued(old(Abs()), w), q[0])
                          else if q == [] then old(Abs()) else Dequeued(old(Abs()), w)
    {
      ghost var b := Abs();
      r := waits.Dequeue(w);
      if r.None? {
        return r, false;
      }
      DequeuedKeeps(b, w);
      woken := TryWake(w, r.value);
      if woken {
        MakeReadyKeeps(Dequeued(b, w), r.value);
      }
    }

    method WakeOneOf(w: ListId) returns (r: Option<Ptr>)
      requires Linked() && Placed(Abs()) && w in waits.waiting
      modifies this, ready, waits
      ensures Linked() && Placed(Abs()) && (Abs(), r) == WakeOne(old(Abs()), w)
    {
      while true
        invariant Linked() && Placed(Abs()) && w in waits.waiting
        invariant WakeOne(Abs(), w) == WakeOne(old(Abs()), w)
        decreases |waits.waiting[w]|
      {
        var woken;
        r, woken := WakeNext(w);
        if woken || r.None? {
          return;
        }
      }
    }

    method WakeAllOf(w: ListId) returns (n: nat)
      requires Linked() && Placed(Abs()) && w in waits.waiting
      modifies this, ready, waits
      ensures Linked() && Placed(Abs()) && (Abs(), n) == WakeAll(old(Abs()), w)
    {
      n := 0;
      while true
        invariant Linked() && Placed(Abs()) && w in waits.waiting
        invariant WakeAll(Abs(), w).0 == WakeAll(old(Abs()), w).0 && n + WakeAll(Abs(), w).1 == WakeAll(old(Abs()), w).1
        decreases |waits.waiting[w]|
      {
        WakeAllStep(Abs(), w);
        var t, woken := WakeNext(w);
        if t.None? {
          return;
        }
        if woken {
          n := n + 1;
        }
      }
    }

    method KillCurrent()
      requires Valid() && current.Some?
      modifies this, threads, ready
      ensures Valid() && Abs() == Kill(old(Abs()))
    {
      KillKeeps(Abs());
      CurrentOnNoQueue(Abs());
      var t := current.value;
      state := state[t := Dead];
      threads.Remove(t);
      PerformContextSwitch(Some(t));
    }

    /** At the end of an interrupt: an idle core looks for a ready thread. */
    method EndInterrupt()
      requires Valid()
      modifies this, ready
      ensures Valid() && Abs() == if old(Abs()).current.None? then Switch(old(Abs())) else old(Abs())
    {
      if current.None? {
        SwitchKeeps(Abs());
        PerformContextSwitch(None);
      }
    }
  }
}
