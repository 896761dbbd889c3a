/** Doubly linked queues threaded through the records they hold: a head, a tail, and one pair of
    links per record. Several queues may share one set of link records.
 */
module IntrusiveQueues {
  import opened Basics

  type Ptr = nat

  /** The null pointer; it names no record. */
  const Null: Ptr := 0

  datatype Link = Link(prev: Ptr, next: Ptr)
  datatype Ends = Ends(head: Ptr, tail: Ptr)
  type Links = map<Ptr, Link>

  function First(q: seq<Ptr>): Ptr {
    if q == [] then Null else q[0]
  }

  function Last(q: seq<Ptr>): Ptr {
    if q == [] then Null else q[|q| - 1]
  }

  /** The element before position `i`. */
  function Before(q: seq<Ptr>, i: nat): Ptr
    requires i <= |q|
  {
    if i == 0 then Null else q[i - 1]
  }

  /** The element after position `i`. */
  function After(q: seq<Ptr>, i: nat): Ptr
    requires i < |q|
  {
    if i + 1 < |q| then q[i + 1] else Null
  }

  /** Following the links from the head visits exactly `q`, and back from the tail its reverse. */
  ghost predicate IsQueue(l: Links, e: Ends, q: seq<Ptr>) {
    && Null !in q
    && Distinct(q)
    && e == Ends(First(q), Last(q))
    && (forall i :: 0 <= i < |q| ==> LinkedAt(l, q, i))
  }

  ghost predicate LinkedAt(l: Links, q: seq<Ptr>, i: nat)
    requires i < |q|
  {
    q[i] in l && l[q[i]] == Link(Before(q, i), After(q, i))
  }

  /** The queue depends on the links of its own elements only. */
  lemma Frame(l: Links, l': Links, e: Ends, q: seq<Ptr>)
    requires IsQueue(l, e, q)
    requires forall x :: x in q ==> x in l' && (x in l ==> l'[x] == l[x])
    ensures IsQueue(l', e, q)
  {
    forall i | 0 <= i < |q|
      ensures LinkedAt(l', q, i)
    {
      assert LinkedAt(l, q, i);
      assert q[i] in q;
    }
  }

  /** The links after `x` is put at the back. */
  function PushLinks(l: Links, e: Ends, x: Ptr): Links
    requires e.tail != Null ==> e.tail in l
  {
    var own := l[x := Link(e.tail, Null)];
    if e.tail == Null then own else own[e.tail := own[e.tail].(next := x)]
  }

  lemma PushBack(l: Links, e: Ends, q: seq<Ptr>, x: Ptr)
    requires IsQueue(l, e, q) && x != Null && x !in q
    requires e.tail != Null ==> e.tail in l
    ensures IsQueue(PushLinks(l, e, x), Ends(if e.head == Null then x else e.head, x), q + [x])
  {
    var l' := PushLinks(l, e, x);
    var q' := q + [x];
    forall i | 0 <= i < |q'|
      ensures LinkedAt(l', q', i)
    {
      if i < |q| {
        assert q'[i] == q[i] && q[i] in q;
        assert LinkedAt(l, q, i);
      }
    }
  }

  /** The head is taken off; `l'` may hold anything for it. */
  lemma PopFront(l: Links, e: Ends, q: seq<Ptr>, l': Links)
    requires IsQueue(l, e, q) && q != []
    requires forall i :: 1 <= i < |q| ==> q[i] in l && q[i] in l' && l'[q[i]] == (if i == 1 then Link(Null, l[q[i]].next) else l[q[i]])
    ensures IsQueue(l', Ends(After(q, 0), if After(q, 0) == Null then Null else e.tail), q[1..])
  {
    var q' := q[1..];
    assert After(q, 0) == Null <==> q' == [] by {
      if |q| > 1 {
        assert q[1] in q;
      }
    }
    forall i | 0 <= i < |q'|
      ensures LinkedAt(l', q', i)
    {
      assert q'[i] == q[i + 1];
      assert LinkedAt(l, q, i + 1);
    }
  }

  function Without(q: seq<Ptr>, i: nat): seq<Ptr>
    requires i < |q|
  {
    q[..i] + q[i + 1..]
  }

  /** An element is taken out of the middle: its neighbours are linked to each other. */
  lemma Unlink(l: Links, e: Ends, q: seq<Ptr>, i: nat, l': Links)
    requires IsQueue(l, e, q) && i < |q|
    requires q[i] in l
    requires forall j :: 0 <= j < |q| && j != i ==>
               q[j] in l && q[j] in l' && l'[q[j]] == Link(if j == i + 1 then l[q[i]].prev else l[q[j]].prev,
                                              if j + 1 == i then l[q[i]].next else l[q[j]].next)
    ensures IsQueue(l', Ends(if i == 0 then After(q, i) else e.head, if i + 1 == |q| then Before(q, i) else e.tail), Without(q, i))
  {
    var q' := Without(q, i);
    forall k | 0 <= k < |q'|
      ensures LinkedAt(l', q', k)
    {
      var j := if k < i then k else k + 1;
      assert q'[k] == q[j];
      assert LinkedAt(l, q, j) && LinkedAt(l, q, i);
      WithoutNeighbours(q, i, k);
    }
    WithoutMembers(q, i);
  }

  lemma WithoutNeighbours(q: seq<Ptr>, i: nat, k: nat)
    requires i < |q| && k < |q| - 1
    ensures Before(Without(q, i), k) == if k < i then Before(q, k) else if k == i then Before(q, i) else Before(q, k + 1)
    ensures After(Without(q, i), k) == if k + 1 < i then After(q, k) else if k + 1 == i then After(q, i) else After(q, k + 1)
  {
  }

  /** Where `x` is in the queue shows in its neighbours. */
  lemma IndexOf(q: seq<Ptr>, x: Ptr) returns (i: nat)
    requires x in q
    ensures i < |q| && q[i] == x
  {
    i :| 0 <= i < |q| && q[i] == x;
  }

  lemma WithoutMembers(q: seq<Ptr>, i: nat)
    requires i < |q| && Distinct(q)
    ensures Distinct(Without(q, i))
    ensures forall x :: x in Without(q, i) <==> x in q && x != q[i]
  {
    var q' := Without(q, i);
    forall x
      ensures x in q' <==> x in q && x != q[i]
    {
      if x in q && x != q[i] {
        var j := IndexOf(q, x);
        assert q'[if j < i then j else j - 1] == x;
      }
      if x in q' {
        var k := IndexOf(q', x);
        assert x == q[if k < i then k else k + 1];
      }
    }
  }
}
