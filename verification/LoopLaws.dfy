/** What a nested repeat list delivers, round by round: the elements of an array of structures
    and of the arrays in them (IOJob.cc). */
module LoopLaws {
  import opened Loops
  import opened Products

  function Append<T>(a: List<T>, b: List<T>): List<T> {
    match a
    case Nil => b
    case Cons(head, tail) => Cons(head, Append(tail, b))
  }

  /** The entries of a list are delivered one after the other. */
  lemma {:induction false} MeaningAppend<T>(a: List<T>, b: List<T>, index: nat, offset: int)
    ensures Meaning(Append(a, b), index, offset) == Meaning(a, index, offset) + Meaning(b, index + Length(a), offset)
  {
    if a.Cons? {
      match a.head
      case Plain(_) =>
        MeaningAppend(a.tail, b, index + 1, offset);
        Regroup([Deliver(index, offset)], Meaning(a.tail, index + 1, offset), Meaning(b, index + Length(a), offset));
      case Loop(n, size, body) =>
        var k := index + 1 + Length(body);
        MeaningAppend(a.tail, b, k, offset);
        Regroup(Times(body, index + 1, 0, size, n), Meaning(a.tail, k, offset), Meaning(b, index + Length(a), offset));
    } else {
      assert Append(a, b) == b && Meaning(a, index, offset) == [];
    }
  }

  /** The offset changes nothing but the offset of what is delivered. */
  lemma {:induction false} MeaningLength<T>(l: List<T>, index: nat, offset: int, other: int)
    ensures |Meaning(l, index, offset)| == |Meaning(l, index, other)|
  {
    if l.Cons? {
      match l.head
      case Plain(_) => MeaningLength(l.tail, index + 1, offset, other);
      case Loop(_, _, body) => MeaningLength(l.tail, index + 1 + Length(body), offset, other);
    }
  }

  /** The r-th of n rounds is the meaning of the body, r times the size further on. */
  lemma {:induction false} RoundAt<T>(l: List<T>, index: nat, offset: int, size: int, n: nat, r: nat)
    requires r < n
    ensures var m, s := |Meaning(l, index, 0)|, Times(l, index, offset, size, n);
            0 <= r * m && r * m + m <= |s| == n * m && s[r * m..r * m + m] == Meaning(l, index, offset + r * size)
    decreases n
  {
    var first, rest := Meaning(l, index, offset), Times(l, index, offset + size, size, n - 1);
    var m := |Meaning(l, index, 0)|;
    MeaningLength(l, index, offset, 0);
    assert Times(l, index, offset, size, n) == first + rest;
    MulMono(n - 1, n, m);
    if n > 1 {
      RoundAt(l, index, offset + size, size, n - 1, if r == 0 then 0 else r - 1);
    }
    if r > 0 {
      MulMono(r - 1, r, m);
      Later(first, rest, (r - 1) * m);
      NextOffset(offset, size, r);
    }
  }

  lemma Later(a: seq<Event>, b: seq<Event>, k: nat)
    requires k + |a| <= |b|
    ensures (a + b)[k + |a|..k + |a| + |a|] == b[k..k + |a|]
  {
  }

  lemma NextOffset(offset: int, size: int, r: int)
    ensures offset + size + (r - 1) * size == offset + r * size
  {
  }

  /** A loop delivers its body as often as it says, each round from its own offset. */
  lemma LoopExact<T>(body: List<T>, n: nat, size: int, index: nat, offset: int, r: nat)
    requires r < n
    ensures var m, s := |Meaning(body, index + 1, 0)|, Meaning(Cons(Loop(n, size, body), Nil), index, offset);
            0 <= r * m && r * m + m <= |s| == n * m && s[r * m..r * m + m] == Meaning(body, index + 1, r * size)
  {
    RoundAt(body, index + 1, 0, size, n, r);
    var all := Times(body, index + 1, 0, size, n);
    assert Meaning(Cons(Loop(n, size, body), Nil), index, offset) == all + Meaning<T>(Nil, index + 1 + Length(body), offset);
    assert all + [] == all;
  }

  predicate AllPlain<T>(l: List<T>) {
    l.Cons? ==> l.head.Plain? && AllPlain(l.tail)
  }

  /** Entries without a loop are delivered in order, with the same offset. */
  lemma {:induction false} PlainExact<T>(l: List<T>, index: nat, offset: int)
    requires AllPlain(l)
    ensures var s := Meaning(l, index, offset);
            |s| == Length(l) && forall k :: 0 <= k < |s| ==> s[k] == Deliver(index + k, offset)
  {
    if l.Cons? {
      PlainExact(l.tail, index + 1, offset);
    }
  }

  /** A loop without repetitions is walked as one with a single repetition. */
  lemma ZeroOnce<T>(size: int, body: List<T>, tail: List<T>)
    requires body != Nil && BodiesNonEmpty(body) && BodiesNonEmpty(tail)
    requires CountsFrom(body, 0) && CountsFrom(tail, 0)
    requires Depth(body) < MAX_LOOP_LEVEL && Depth(tail) <= MAX_LOOP_LEVEL
    ensures Whole(Encode(Cons(Loop(0, size, body), tail))) == Whole(Encode(Cons(Loop(1, size, body), tail)))
  {
    WalkOnce(Cons(Loop(0, size, body), tail));
    WalkOnce(Cons(Loop(1, size, body), tail));
    assert Rounds(0) == Rounds(1);
  }
}
