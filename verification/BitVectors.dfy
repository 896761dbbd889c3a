/** A fixed-size bit vector packed into 32-bit words, explained by the set of its indices. A word
    is taken as the set of its bits.
 */
module BitVectors {
  import opened Basics
  import opened MachineWords

  type Word = set<BitPos>
  type Words = seq<Word>

  /** The number of bits that the words hold. */
  function Room(words: Words): nat {
    32 * |words|
  }

  predicate Get(words: Words, i: nat)
    requires i < Room(words)
  {
    i % 32 in words[i / 32]
  }

  predicate In(words: Words, i: nat) {
    i < Room(words) && Get(words, i)
  }

  // ---- the set of indices ----

  /** The indices that are set. */
  ghost function Members(words: Words): set<nat> {
    MembersBelow(words, Room(words))
  }

  ghost function MembersBelow(words: Words, n: nat): set<nat> {
    if n == 0 then {} else MembersBelow(words, n - 1) + if In(words, n - 1) then {n - 1} else {}
  }

  lemma {:induction false} MembersBelowIs(words: Words, n: nat, i: nat)
    ensures i in MembersBelow(words, n) <==> i < n && In(words, i)
  {
    if n > 0 {
      MembersBelowIs(words, n - 1, i);
    }
  }

  lemma MembersIs(words: Words)
    ensures forall i: nat :: i in Members(words) <==> In(words, i)
  {
    forall i: nat
      ensures i in Members(words) <==> In(words, i)
    {
      MembersBelowIs(words, Room(words), i);
    }
  }

  // ---- set ----

  /** Word `w` with the bits of `mask` set to `val`. */
  function Masked(w: Word, mask: Word, val: bool): Word {
    if val then w + mask else w * (Upto(32) - mask)
  }

  function Set(words: Words, i: nat, val: bool): Words
    requires i < Room(words)
  {
    words[i / 32 := Masked(words[i / 32], {i % 32}, val)]
  }

  lemma SetIn(words: Words, i: nat, val: bool, j: nat)
    requires i < Room(words)
    ensures In(Set(words, i, val), j) <==> if i == j then val else In(words, j)
  {
  }

  /** Setting a bit adds or removes exactly that index. */
  lemma SetMembers(words: Words, i: nat, val: bool)
    requires i < Room(words)
    ensures Members(Set(words, i, val)) == if val then Members(words) + {i} else Members(words) - {i}
  {
    MembersIs(words);
    MembersIs(Set(words, i, val));
    forall j: nat
      ensures In(Set(words, i, val), j) <==> if i == j then val else In(words, j)
    {
      SetIn(words, i, val, j);
    }
  }

  // ---- ranges ----

  datatype Bound = Included(at: nat) | Excluded(at: nat) | Unbounded

  /** The largest index that a machine word can hold. */
  const MAX: nat := 0xFFFF_FFFF_FFFF_FFFF

  /** The mask of the indices from `start` to `end` that fall into word `k`. */
  function RangeMask(start: nat, end: nat, k: nat): Word {
    var from := if k == start / 32 && start % 32 != 0 then Upto(32) - Upto(start % 32) else Upto(32);
    if k == end / 32 && end % 32 != 31 then from * Upto(end % 32 + 1) else from
  }

  lemma RangeMaskHas(start: nat, end: nat, k: nat, c: BitPos)
    requires start / 32 <= k <= end / 32
    ensures c in RangeMask(start, end, k) <==> start <= 32 * k + c <= end
  {
  }

  /** The first and last index of a range, or nothing when the bounds rule out any. */
  function RangeEnds(start: Bound, end: Bound, n: nat): Option<(nat, int)> {
    if start == Excluded(MAX) || end == Excluded(0) then None
    else Some((match start case Excluded(s) => s + 1 case Included(s) => s case Unbounded => 0,
               match end case Excluded(e) => e - 1 case Included(e) => e case Unbounded => n - 1))
  }

  /** Sets a range of indices. A range of fewer than two indices is left alone; a longer one that
      does not fit is refused. */
  method SetRange(words: Words, n: nat, start: Bound, end: Bound, val: bool) returns (ok: bool, out: Words)
    requires n <= Room(words)
    ensures |out| == |words|
    ensures var r := RangeEnds(start, end, n);
            if r.None? || r.value.1 <= r.value.0 then ok && out == words
            else if r.value.1 >= n then !ok && out == words
            else ok && forall j: nat :: In(out, j) <==> if r.value.0 <= j <= r.value.1 then val else In(words, j)
  {
    var r := RangeEnds(start, end, n);
    if r.None? || r.value.1 <= r.value.0 {
      return true, words;
    }
    var s, e := r.value.0, r.value.1;
    if s >= n || e >= n {
      return false, words;
    }
    out := words;
    for k := s / 32 to e / 32 + 1
      invariant |out| == |words|
      invariant forall m, c: BitPos :: 0 <= m < |words| ==>
                  (c in out[m] <==> if m < k && s <= 32 * m + c <= e then val else c in words[m])
    {
      var mask := RangeMask(s, e, k);
      forall c: BitPos
        ensures c in mask <==> s <= 32 * k + c <= e
      {
        RangeMaskHas(s, e, k, c);
      }
      out := out[k := Masked(out[k], mask, val)];
    }
    ok := true;
    forall j: nat
      ensures In(out, j) <==> if s <= j <= e then val else In(words, j)
    {
      if j < Room(words) {
        assert j % 32 in out[j / 32] <==> if s <= j <= e then val else j % 32 in words[j / 32];
      }
    }
  }

  // ---- searching and counting ----

  /** Nothing is set from index `n` on. */
  ghost predicate Clean(words: Words, n: nat) {
    n <= Room(words) && forall i: nat :: In(words, i) ==> i < n
  }

  /** The least member at or after `start`. */
  method FindNext(words: Words, n: nat, start: nat) returns (r: Option<nat>)
    requires Clean(words, n)
    ensures r.None? ==> forall j: nat :: start <= j ==> !In(words, j)
    ensures r.Some? ==> start <= r.value < n && In(words, r.value) && forall j: nat :: start <= j < r.value ==> !In(words, j)
  {
    if start >= n {
      return None;
    }
    var idx := start / 32;
    var mask := Upto(32) - Upto(start % 32);
    while idx < |words|
      invariant start / 32 <= idx <= |words|
      invariant forall c: BitPos :: c in mask <==> start <= 32 * idx + c
      invariant forall j: nat :: start <= j < 32 * idx ==> !In(words, j)
    {
      var w := words[idx] * mask;
      if w != {} {
        var z := TrailingZeros(w, 0);
        r := Some(32 * idx + z);
        InWord(words, idx, z);
        forall j: nat | start <= j < r.value
          ensures !In(words, j)
        {
          if j >= 32 * idx {
            assert j / 32 == idx && j % 32 !in w;
          }
        }
        return;
      }
      forall j: nat | 32 * idx <= j < 32 * (idx + 1) && start <= j
        ensures !In(words, j)
      {
        assert j / 32 == idx && j % 32 !in w;
      }
      idx, mask := idx + 1, Upto(32);
    }
    r := None;
  }

  lemma InWord(words: Words, k: nat, c: BitPos)
    requires k < |words|
    ensures In(words, 32 * k + c) <==> c in words[k]
  {
  }

  ghost function CountBelow(words: Words, n: nat): nat {
    if n == 0 then 0 else CountBelow(words, n - 1) + if In(words, n - 1) then 1 else 0
  }

  lemma {:induction false} CountIsSize(words: Words, n: nat)
    ensures CountBelow(words, n) == |MembersBelow(words, n)|
  {
    for k := 0 to n
      invariant CountBelow(words, k) == |MembersBelow(words, k)|
    {
      SizeStep(words, k);
    }
  }

  lemma {:induction false} SizeStep(words: Words, k: nat)
    requires CountBelow(words, k) == |MembersBelow(words, k)|
    ensures CountBelow(words, k + 1) == |MembersBelow(words, k + 1)|
  {
    MembersBelowIs(words, k, k);
    var s := MembersBelow(words, k);
    if In(words, k) {
      assert MembersBelow(words, k + 1) == s + {k};
    } else {
      assert MembersBelow(words, k + 1) == s;
    }
  }

  /** The bits of word `k` below `b`, counted one by one. */
  lemma {:induction false} OnesCount(words: Words, k: nat, b: nat)
    requires k < |words| && b <= 32
    ensures CountBelow(words, 32 * k + b) == CountBelow(words, 32 * k) + |words[k] * Upto(b)|
  {
    if b > 0 {
      OnesCount(words, k, b - 1);
      InWord(words, k, b - 1);
      CountStep(words, 32 * k + b - 1);
      UptoStep(words[k], b - 1);
    } else {
      assert words[k] * Upto(0) == {};
    }
  }

  lemma {:induction false} CountStep(words: Words, i: nat)
    ensures CountBelow(words, i + 1) == CountBelow(words, i) + if In(words, i) then 1 else 0
  {
  }

  /** How many indices are set. */
  method Count(words: Words) returns (count: nat)
    ensures count == |Members(words)|
  {
    count := 0;
    for k := 0 to |words|
      invariant count == CountBelow(words, 32 * k)
    {
      OnesCount(words, k, 32);
      assert words[k] * Upto(32) == words[k];
      count := count + |words[k]|;
    }
    CountIsSize(words, Room(words));
  }
}
