/** Repetitions in data and format lists: the flat encoding of nested repeat lists, what it
    unrolls to, and class LoopControl, which walks it with an explicit stack (IOJob.cc). */
module Loops {

  const MAX_LOOP_LEVEL := 11

  /** A list entry; LoopStart counts the entries of its body and gives the number of
      repetitions and the bytes to move on with each of them. */
  datatype Entry<T> = Item(value: T) | LoopStart(items: int, repetitions: int, size: int)

  datatype Signal = RepetitionOverflow | RepetitionValue | BadArraySegment

  /** An entry that is delivered with the current offset, or the signal that ends the walk. */
  datatype Event = Deliver(index: nat, offset: int) | Fail(signal: Signal)

  // ---------------------------------------------------------------- the unrolling

  /** Loops in the range have a body and end inside it. */
  predicate WellNested<T>(e: seq<Entry<T>>, i: int, j: int)
    decreases j - i
  {
    && 0 <= i <= j <= |e|
    && (i < j ==>
          match e[i]
          case Item(_) => WellNested(e, i + 1, j)
          case LoopStart(items, _, _) =>
            1 <= items < j - i && WellNested(e, i + 1, i + 1 + items) && WellNested(e, i + 1 + items, j))
  }

  /** The body of a loop with no repetitions is delivered once all the same. */
  function Rounds(repetitions: int): int {
    if repetitions == 0 then 1 else repetitions
  }

  /** What a well-nested range of entries delivers, followed by `rest`; `levels` more loops
      may be opened. */
  function Unroll<T>(e: seq<Entry<T>>, i: int, j: int, offset: int, levels: int, rest: seq<Event>): seq<Event>
    decreases j - i, 0, 0
  {
    if !(0 <= i < j <= |e|) then rest
    else
      match e[i]
      case Item(_) => [Deliver(i, offset)] + Unroll(e, i + 1, j, offset, levels, rest)
      case LoopStart(items, repetitions, size) =>
        if !(1 <= items < j - i) then rest
        else
          var after := Unroll(e, i + 1 + items, j, offset, levels, rest);
          if levels <= 0 then [Fail(RepetitionOverflow)] + after
          else if repetitions < 0 then [Fail(RepetitionValue)] + after
          else Repeat(e, i + 1, i + 1 + items, 0, size, Rounds(repetitions), levels - 1, after)
  }

  /** A loop body n times, each time `size` further on, followed by `rest`. */
  function Repeat<T>(e: seq<Entry<T>>, i: int, j: int, offset: int, size: int, n: int, levels: int,
                     rest: seq<Event>): seq<Event>
    decreases j - i, 1, n
  {
    if n <= 0 then rest
    else Unroll(e, i, j, offset, levels, Repeat(e, i, j, offset + size, size, n - 1, levels, rest))
  }

  lemma {:induction false} UnrollNonEmpty<T>(e: seq<Entry<T>>, i: int, j: int, offset: int, levels: int, rest: seq<Event>)
    requires WellNested(e, i, j) && i < j
    ensures Unroll(e, i, j, offset, levels, rest) != []
    decreases j - i
  {
    if e[i].LoopStart? && levels > 0 && e[i].repetitions >= 0 {
      var k := i + 1 + e[i].items;
      UnrollNonEmpty(e, i + 1, k, 0, levels - 1,
        Repeat(e, i + 1, k, e[i].size, e[i].size, Rounds(e[i].repetitions) - 1, levels - 1,
               Unroll(e, k, j, offset, levels, rest)));
    }
  }

  // ---------------------------------------------------------------- nested lists

  /** A list as the program writes it. */
  datatype Node<T> = Plain(value: T) | Loop(repetitions: int, size: int, body: List<T>)
  datatype List<T> = Nil | Cons(head: Node<T>, tail: List<T>)

  function Length<T>(l: List<T>): nat {
    match l
    case Nil => 0
    case Cons(Plain(_), tail) => 1 + Length(tail)
    case Cons(Loop(_, _, body), tail) => 1 + Length(body) + Length(tail)
  }

  function Encode<T>(l: List<T>): (e: seq<Entry<T>>)
    ensures |e| == Length(l)
  {
    match l
    case Nil => []
    case Cons(Plain(v), tail) => [Item(v)] + Encode(tail)
    case Cons(Loop(n, size, body), tail) => [LoopStart(Length(body), n, size)] + Encode(body) + Encode(tail)
  }

  predicate BodiesNonEmpty<T>(l: List<T>) {
    match l
    case Nil => true
    case Cons(Plain(_), tail) => BodiesNonEmpty(tail)
    case Cons(Loop(_, _, body), tail) => body != Nil && BodiesNonEmpty(body) && BodiesNonEmpty(tail)
  }

  function Depth<T>(l: List<T>): nat {
    match l
    case Nil => 0
    case Cons(Plain(_), tail) => Depth(tail)
    case Cons(Loop(_, _, body), tail) => if Depth(body) + 1 > Depth(tail) then Depth(body) + 1 else Depth(tail)
  }

  /** No loop has fewer than `least` repetitions. */
  predicate CountsFrom<T>(l: List<T>, least: int) {
    match l
    case Nil => true
    case Cons(Plain(_), tail) => CountsFrom(tail, least)
    case Cons(Loop(n, _, body), tail) => n >= least && CountsFrom(body, least) && CountsFrom(tail, least)
  }

  /** The list with one repetition where it has none. */
  function AtLeastOnce<T>(l: List<T>): (r: List<T>)
    ensures Length(r) == Length(l)
  {
    match l
    case Nil => Nil
    case Cons(Plain(v), tail) => Cons(Plain(v), AtLeastOnce(tail))
    case Cons(Loop(n, size, body), tail) => Cons(Loop(Rounds(n), size, AtLeastOnce(body)), AtLeastOnce(tail))
  }

  /** What a nested list stands for; its first entry has the given index. */
  function Meaning<T>(l: List<T>, index: nat, offset: int): seq<Event>
    decreases l, 0
  {
    match l
    case Nil => []
    case Cons(Plain(_), tail) => [Deliver(index, offset)] + Meaning(tail, index + 1, offset)
    case Cons(Loop(n, size, body), tail) =>
      Times(body, index + 1, 0, size, n) + Meaning(tail, index + 1 + Length(body), offset)
  }

  function Times<T>(l: List<T>, index: nat, offset: int, size: int, n: int): seq<Event>
    decreases l, 1, n
  {
    if n <= 0 then [] else Meaning(l, index, offset) + Times(l, index, offset + size, size, n - 1)
  }

  /** The encoding of a list stands in e from index i on. */
  ghost predicate EncodedAt<T>(e: seq<Entry<T>>, i: nat, l: List<T>)
    decreases l
  {
    && i + Length(l) <= |e|
    && match l
       case Nil => true
       case Cons(Plain(v), tail) => e[i] == Item(v) && EncodedAt(e, i + 1, tail)
       case Cons(Loop(n, size, body), tail) =>
         && e[i] == LoopStart(Length(body), n, size)
         && EncodedAt(e, i + 1, body) && EncodedAt(e, i + 1 + Length(body), tail)
  }

  lemma Shift<T>(a: seq<T>, b: seq<T>, c: seq<T>, d: seq<T>)
    ensures a + (b + c) + d == (a + b) + c + d
    ensures (a + b) + (c + d) == (a + b) + c + d
  {
  }

  lemma {:induction false} EncodeStands<T>(before: seq<Entry<T>>, l: List<T>, after: seq<Entry<T>>)
    ensures EncodedAt(before + Encode(l) + after, |before|, l)
    decreases l
  {
    if l.Cons? {
      var tail := Encode(l.tail);
      if l.head.Plain? {
        var item := [Item(l.head.value)];
        Shift(before, item, tail, after);
        EncodeStands(before + item, l.tail, after);
        assert (before + item + tail + after)[|before|] == item[0];
      } else {
        EncodeLoop(before, l, after);
      }
    }
  }

  lemma {:induction false} EncodeLoop<T>(before: seq<Entry<T>>, l: List<T>, after: seq<Entry<T>>)
    requires l.Cons? && l.head.Loop?
    ensures EncodedAt(before + Encode(l) + after, |before|, l)
    decreases l, 0
  {
    var start := [LoopStart(Length(l.head.body), l.head.repetitions, l.head.size)];
    var body, tail := Encode(l.head.body), Encode(l.tail);
    Shift(before, start + body, tail, after);
    Shift(before, start, body, tail + after);
    Shift(before + start, body, tail, after);
    var e := before + Encode(l) + after;
    assert e == (before + start + body) + tail + after == (before + start) + body + (tail + after);
    EncodeStands(before + start, l.head.body, tail + after);
    EncodeStands(before + start + body, l.tail, after);
    assert e[|before|] == start[0];
  }

  /** The encoding of a nested list without empty bodies is well nested. */
  lemma {:induction false} EncodedNests<T>(e: seq<Entry<T>>, i: nat, l: List<T>)
    requires EncodedAt(e, i, l) && BodiesNonEmpty(l)
    ensures WellNested(e, i, i + Length(l))
    decreases l
  {
    if l.Cons? {
      if l.head.Plain? {
        EncodedNests(e, i + 1, l.tail);
      } else {
        EncodedNests(e, i + 1, l.head.body);
        EncodedNests(e, i + 1 + Length(l.head.body), l.tail);
      }
    }
  }

  lemma Regroup(a: seq<Event>, b: seq<Event>, c: seq<Event>)
    ensures a + b + c == a + (b + c)
  {
  }

  /** The flat encoding unrolls to the meaning of the list, a loop without repetitions
      running once: no signal comes from a list within the stack and without negative counts. */
  lemma {:induction false} EncodedUnrolls<T>(e: seq<Entry<T>>, i: nat, l: List<T>, offset: int, levels: nat,
                                             rest: seq<Event>)
    requires EncodedAt(e, i, l) && BodiesNonEmpty(l) && CountsFrom(l, 0) && Depth(l) <= levels
    ensures Unroll(e, i, i + Length(l), offset, levels, rest) == Meaning(AtLeastOnce(l), i, offset) + rest
    decreases l, 0, 1
  {
    if l.Cons? {
      if l.head.Plain? {
        EncodedUnrolls(e, i + 1, l.tail, offset, levels, rest);
        Regroup([Deliver(i, offset)], Meaning(AtLeastOnce(l.tail), i + 1, offset), rest);
      } else {
        EncodedLoop(e, i, l, offset, levels, rest);
      }
    }
  }

  lemma {:induction false} EncodedLoop<T>(e: seq<Entry<T>>, i: nat, l: List<T>, offset: int, levels: nat,
                                          rest: seq<Event>)
    requires l.Cons? && l.head.Loop?
    requires EncodedAt(e, i, l) && BodiesNonEmpty(l) && CountsFrom(l, 0) && Depth(l) <= levels
    ensures Unroll(e, i, i + Length(l), offset, levels, rest) == Meaning(AtLeastOnce(l), i, offset) + rest
    decreases l, 0, 0
  {
    var body, n, size := l.head.body, Rounds(l.head.repetitions), l.head.size;
    var k := i + 1 + Length(body);
    var after := Unroll(e, k, i + Length(l), offset, levels, rest);
    EncodedUnrolls(e, k, l.tail, offset, levels, rest);
    EncodedRepeats(e, i + 1, body, 0, size, n, levels - 1, after);
    LoopParts(e, i, l, offset, levels, rest);
    Regroup(Times(AtLeastOnce(body), i + 1, 0, size, n), Meaning(AtLeastOnce(l.tail), k, offset), rest);
  }

  /** The rounds of a loop come before what follows it, in the encoding and in the meaning. */
  lemma LoopParts<T>(e: seq<Entry<T>>, i: nat, l: List<T>, offset: int, levels: nat, rest: seq<Event>)
    requires l.Cons? && l.head.Loop? && EncodedAt(e, i, l) && l.head.body != Nil && levels > 0 && l.head.repetitions >= 0
    ensures var n, size, k := Rounds(l.head.repetitions), l.head.size, i + 1 + Length(l.head.body);
            && Unroll(e, i, i + Length(l), offset, levels, rest)
               == Repeat(e, i + 1, k, 0, size, n, levels - 1, Unroll(e, k, i + Length(l), offset, levels, rest))
            && Meaning(AtLeastOnce(l), i, offset)
               == Times(AtLeastOnce(l.head.body), i + 1, 0, size, n) + Meaning(AtLeastOnce(l.tail), k, offset)
  {
  }

  lemma {:induction false} EncodedRepeats<T>(e: seq<Entry<T>>, i: nat, l: List<T>, offset: int, size: int, n: int,
                                             levels: nat, rest: seq<Event>)
    requires EncodedAt(e, i, l) && BodiesNonEmpty(l) && CountsFrom(l, 0) && Depth(l) <= levels
    ensures Repeat(e, i, i + Length(l), offset, size, n, levels, rest)
         == Times(AtLeastOnce(l), i, offset, size, n) + rest
    decreases l, 1, n
  {
    if n > 0 {
      var more := Repeat(e, i, i + Length(l), offset + size, size, n - 1, levels, rest);
      EncodedRepeats(e, i, l, offset + size, size, n - 1, levels, rest);
      EncodedUnrolls(e, i, l, offset, levels, more);
      Regroup(Meaning(AtLeastOnce(l), i, offset), Times(AtLeastOnce(l), i, offset + size, size, n - 1), rest);
    }
  }

  ghost predicate Signals(s: seq<Event>) {
    exists k :: 0 <= k < |s| && s[k].Fail?
  }

  lemma SignalsAmong(s: seq<Event>, rest: seq<Event>)
    ensures Signals(s + rest) <==> Signals(s) || Signals(rest)
  {
    if Signals(rest) {
      var k :| 0 <= k < |rest| && rest[k].Fail?;
      assert (s + rest)[|s| + k].Fail?;
    }
    if Signals(s) {
      var k :| 0 <= k < |s| && s[k].Fail?;
      assert (s + rest)[k].Fail?;
    }
  }

  /** Every loop is entered at least once, so a list that is too deep or has a negative
      count meets its signal. */
  lemma {:induction false} Refused<T>(e: seq<Entry<T>>, i: nat, l: List<T>, offset: int, levels: nat, rest: seq<Event>)
    requires EncodedAt(e, i, l) && BodiesNonEmpty(l)
    requires !(CountsFrom(l, 0) && Depth(l) <= levels) || Signals(rest)
    ensures Signals(Unroll(e, i, i + Length(l), offset, levels, rest))
    decreases l, 0, 0
  {
    if l.Cons? {
      if l.head.Plain? {
        Refused(e, i + 1, l.tail, offset, levels, rest);
        SignalsAmong([Deliver(i, offset)], Unroll(e, i + 1, i + Length(l), offset, levels, rest));
      } else {
        var k := i + 1 + Length(l.head.body);
        var after := Unroll(e, k, i + Length(l), offset, levels, rest);
        if levels == 0 || l.head.repetitions < 0 {
          assert Unroll(e, i, i + Length(l), offset, levels, rest)[0].Fail?;
        } else {
          if !(CountsFrom(l.tail, 0) && Depth(l.tail) <= levels) || Signals(rest) {
            Refused(e, k, l.tail, offset, levels, rest);
          }
          RefusedRepeat(e, i + 1, l.head.body, 0, l.head.size, Rounds(l.head.repetitions), levels - 1, after);
        }
      }
    }
  }

  lemma {:induction false} RefusedRepeat<T>(e: seq<Entry<T>>, i: nat, l: List<T>, offset: int, size: int, n: int,
                                            levels: nat, rest: seq<Event>)
    requires EncodedAt(e, i, l) && BodiesNonEmpty(l)
    requires (n > 0 && !(CountsFrom(l, 0) && Depth(l) <= levels)) || Signals(rest)
    ensures Signals(Repeat(e, i, i + Length(l), offset, size, n, levels, rest))
    decreases l, 1, n
  {
    if n > 0 {
      var more := Repeat(e, i, i + Length(l), offset + size, size, n - 1, levels, rest);
      if Signals(rest) {
        RefusedRepeat(e, i, l, offset + size, size, n - 1, levels, rest);
      }
      Refused(e, i, l, offset, levels, more);
    }
  }

  lemma {:induction false} MeaningDelivers<T>(l: List<T>, i: nat, offset: int)
    ensures !Signals(Meaning(l, i, offset))
    decreases l, 0, 0
  {
    if l.Cons? {
      if l.head.Plain? {
        MeaningDelivers(l.tail, i + 1, offset);
        SignalsAmong([Deliver(i, offset)], Meaning(l.tail, i + 1, offset));
      } else {
        var k := i + 1 + Length(l.head.body);
        TimesDelivers(l.head.body, i + 1, 0, l.head.size, l.head.repetitions);
        MeaningDelivers(l.tail, k, offset);
        SignalsAmong(Times(l.head.body, i + 1, 0, l.head.size, l.head.repetitions), Meaning(l.tail, k, offset));
      }
    }
  }

  lemma {:induction false} TimesDelivers<T>(l: List<T>, i: nat, offset: int, size: int, n: int)
    ensures !Signals(Times(l, i, offset, size, n))
    decreases l, 1, n
  {
    if n > 0 {
      MeaningDelivers(l, i, offset);
      TimesDelivers(l, i, offset + size, size, n - 1);
      SignalsAmong(Meaning(l, i, offset), Times(l, i, offset + size, size, n - 1));
    }
  }

  /** What the walk of a whole list delivers. */
  ghost function Whole<T>(e: seq<Entry<T>>): seq<Event> {
    Unroll(e, 0, |e|, 0, MAX_LOOP_LEVEL, [])
  }

  lemma {:induction false} Longer<T>(l: List<T>, i: nat, offset: int)
    requires BodiesNonEmpty(l) && CountsFrom(l, 0)
    ensures |Meaning(AtLeastOnce(l), i, offset)| >= |Meaning(l, i, offset)|
    ensures !CountsFrom(l, 1) ==> |Meaning(AtLeastOnce(l), i, offset)| > |Meaning(l, i, offset)|
    ensures l.Cons? ==> |Meaning(AtLeastOnce(l), i, offset)| > 0
    ensures CountsFrom(l, 1) ==> AtLeastOnce(l) == l
    decreases l, 0, 0
  {
    if l.Cons? {
      if l.head.Plain? {
        Longer(l.tail, i + 1, offset);
      } else {
        LongerTimes(l.head.body, i + 1, 0, l.head.size, l.head.repetitions);
        Longer(l.head.body, i + 1, 0);
        Longer(l.tail, i + 1 + Length(l.head.body), offset);
      }
    }
  }

  lemma {:induction false} LongerTimes<T>(l: List<T>, i: nat, offset: int, size: int, n: nat)
    requires BodiesNonEmpty(l) && CountsFrom(l, 0) && l.Cons?
    ensures |Times(AtLeastOnce(l), i, offset, size, Rounds(n))| >= |Times(l, i, offset, size, n)|
    ensures n == 0 || !CountsFrom(l, 1) ==>
            |Times(AtLeastOnce(l), i, offset, size, Rounds(n))| > |Times(l, i, offset, size, n)|
    ensures |Times(AtLeastOnce(l), i, offset, size, Rounds(n))| > 0
    decreases l, 1, n
  {
    Longer(l, i, offset);
    if n > 1 {
      LongerTimes(l, i, offset + size, size, n - 1);
    }
  }

  lemma EncodedWhole<T>(l: List<T>)
    requires BodiesNonEmpty(l)
    ensures EncodedAt(Encode(l), 0, l) && WellNested(Encode(l), 0, |Encode(l)|)
  {
    EncodesItself(l);
    EncodedNests(Encode(l), 0, l);
  }

  lemma EncodesItself<T>(l: List<T>)
    ensures EncodedAt(Encode(l), 0, l)
  {
    EncodeStands([], l, []);
    assert [] + Encode(l) + [] == Encode(l);
  }

  /** Without negative counts and within the stack no signal comes. */
  lemma WalkOnce<T>(l: List<T>)
    requires BodiesNonEmpty(l) && Depth(l) <= MAX_LOOP_LEVEL && CountsFrom(l, 0)
    ensures Whole(Encode(l)) == Meaning(AtLeastOnce(l), 0, 0)
    ensures !Signals(Whole(Encode(l)))
  {
    EncodedWhole(l);
    EncodedUnrolls(Encode(l), 0, l, 0, MAX_LOOP_LEVEL, []);
    assert Meaning(AtLeastOnce(l), 0, 0) + [] == Meaning(AtLeastOnce(l), 0, 0);
    MeaningDelivers(AtLeastOnce(l), 0, 0);
  }

  lemma WalkRefused<T>(l: List<T>)
    requires BodiesNonEmpty(l) && !(Depth(l) <= MAX_LOOP_LEVEL && CountsFrom(l, 0))
    ensures Signals(Whole(Encode(l)))
  {
    EncodedWhole(l);
    Refused(Encode(l), 0, l, 0, MAX_LOOP_LEVEL, []);
  }

  /** The walk of an encoded list delivers exactly its nested meaning if and only if it is
      not too deep and every count is positive. */
  lemma WalkExact<T>(l: List<T>)
    requires BodiesNonEmpty(l)
    ensures WellNested(Encode(l), 0, |Encode(l)|)
    ensures Whole(Encode(l)) == Meaning(l, 0, 0) <==> Depth(l) <= MAX_LOOP_LEVEL && CountsFrom(l, 1)
    ensures Signals(Whole(Encode(l))) <==> Depth(l) > MAX_LOOP_LEVEL || !CountsFrom(l, 0)
  {
    EncodedWhole(l);
    CountsDown(l);
    if Depth(l) <= MAX_LOOP_LEVEL && CountsFrom(l, 0) {
      WalkOnce(l);
      Longer(l, 0, 0);
    } else {
      WalkRefused(l);
      MeaningDelivers(l, 0, 0);
    }
  }

  lemma {:induction false} CountsDown<T>(l: List<T>)
    ensures CountsFrom(l, 1) ==> CountsFrom(l, 0)
    decreases l
  {
    if l.Cons? {
      if l.head.Loop? {
        CountsDown(l.head.body);
      }
      CountsDown(l.tail);
    }
  }

  // ---------------------------------------------------------------- the stack

  datatype Frame = Frame(lastItem: int, startItem: int, loops: int, sizeOfBody: int, offsetIncrement: int)

  /** The current item and the open loops, innermost last. */
  datatype State = State(item: int, frames: seq<Frame>)

  function Pop(frames: seq<Frame>): seq<Frame>
    requires frames != []
  {
    frames[..|frames| - 1]
  }

  function Top(frames: seq<Frame>): Frame
    requires frames != []
  {
    frames[|frames| - 1]
  }

  function CurrentOffset(frames: seq<Frame>): int {
    if frames == [] then 0 else Top(frames).offsetIncrement
  }

  /** next: loops that end here are repeated or left. */
  function NextState(s: State, n: int, cyclic: bool): State
    decreases |s.frames|
  {
    if s.frames != [] && s.item == Top(s.frames).lastItem then
      var f := Top(s.frames);
      if f.loops > 1 then
        State(f.startItem, Pop(s.frames) +
          [f.(loops := f.loops - 1, offsetIncrement := f.offsetIncrement + f.sizeOfBody)])
      else NextState(State(s.item, Pop(s.frames)), n, cyclic)
    else if cyclic && s.item + 1 >= n then State(0, s.frames)
    else State(s.item + 1, s.frames)
  }

  /** enter, where it does not signal. */
  function EnterState(s: State, items: int, repetitions: int, size: int): State {
    State(s.item + 1, s.frames + [Frame(s.item + items, s.item + 1, repetitions, size, 0)])
  }

  // ---------------------------------------------------------------- what is still to come

  /** The open loops lie inside each other, and entry i is inside the innermost or follows it. */
  ghost predicate Proper<T>(e: seq<Entry<T>>, frames: seq<Frame>, i: int)
    decreases |frames|
  {
    && |frames| <= MAX_LOOP_LEVEL
    && if frames == [] then WellNested(e, i, |e|)
       else
         var f := Top(frames);
         && WellNested(e, i, f.lastItem + 1)
         && f.startItem <= f.lastItem && WellNested(e, f.startItem, f.lastItem + 1)
         && Proper(e, Pop(frames), f.lastItem + 1)
  }

  /** Everything from entry i on: the rest of the innermost body, its further rounds, and
      then the same for the loops around it. */
  ghost function Future<T>(e: seq<Entry<T>>, frames: seq<Frame>, i: int): seq<Event>
    decreases |frames|, 1
  {
    if frames == [] then Unroll(e, i, |e|, 0, MAX_LOOP_LEVEL, [])
    else
      var f := Top(frames);
      Unroll(e, i, f.lastItem + 1, f.offsetIncrement, MAX_LOOP_LEVEL - |frames|, FurtherRounds(e, frames))
  }

  ghost function FurtherRounds<T>(e: seq<Entry<T>>, frames: seq<Frame>): seq<Event>
    requires frames != []
    decreases |frames|, 0
  {
    var f := Top(frames);
    Repeat(e, f.startItem, f.lastItem + 1, f.offsetIncrement + f.sizeOfBody, f.sizeOfBody, f.loops - 1,
           MAX_LOOP_LEVEL - |frames|, Future(e, Pop(frames), f.lastItem + 1))
  }

  /** At the end of a body the loop goes into its next round or is left. */
  lemma EndOfBody<T>(e: seq<Entry<T>>, frames: seq<Frame>)
    requires frames != [] && Proper(e, frames, Top(frames).lastItem + 1)
    ensures var f := Top(frames);
            if f.loops > 1 then
              var again := Pop(frames) + [f.(loops := f.loops - 1, offsetIncrement := f.offsetIncrement + f.sizeOfBody)];
              && Proper(e, again, f.startItem)
              && Future(e, again, f.startItem) == Future(e, frames, f.lastItem + 1)
            else
              Future(e, frames, f.lastItem + 1) == Future(e, Pop(frames), f.lastItem + 1)
  {
    var f := Top(frames);
    if f.loops > 1 {
      var again := Pop(frames) + [f.(loops := f.loops - 1, offsetIncrement := f.offsetIncrement + f.sizeOfBody)];
      assert Pop(again) == Pop(frames);
    }
  }

  ghost predicate Inside<T>(e: seq<Entry<T>>, frames: seq<Frame>, i: int) {
    i < if frames == [] then |e| else Top(frames).lastItem + 1
  }

  /** Inside a body there is more to come. */
  lemma InsideFuture<T>(e: seq<Entry<T>>, frames: seq<Frame>, i: int)
    requires Proper(e, frames, i) && Inside(e, frames, i)
    ensures Future(e, frames, i) != []
  {
    if frames == [] {
      UnrollNonEmpty(e, i, |e|, 0, MAX_LOOP_LEVEL, []);
    } else {
      var f := Top(frames);
      UnrollNonEmpty(e, i, f.lastItem + 1, f.offsetIncrement, MAX_LOOP_LEVEL - |frames|, FurtherRounds(e, frames));
    }
  }

  ghost predicate Ends(s: State) {
    s.frames != [] && s.item == Top(s.frames).lastItem
  }

  /** No loop ends here: next moves on by one entry. */
  lemma NextEntry<T>(e: seq<Entry<T>>, s: State, cyclic: bool)
    requires Proper(e, s.frames, s.item + 1) && !Ends(s)
    ensures var x := NextState(s, |e|, cyclic);
            if Inside(e, s.frames, s.item + 1) then
              x == State(s.item + 1, s.frames) && Future(e, s.frames, s.item + 1) != []
            else x == State(if cyclic then 0 else |e|, []) && Future(e, s.frames, s.item + 1) == []
  {
    if Inside(e, s.frames, s.item + 1) {
      InsideFuture(e, s.frames, s.item + 1);
      ProperBounds(e, s.frames, s.item + 1);
    }
  }

  lemma ProperBounds<T>(e: seq<Entry<T>>, frames: seq<Frame>, i: int)
    requires Proper(e, frames, i)
    ensures 0 <= i <= |e| && (frames != [] ==> i <= Top(frames).lastItem + 1 <= |e|)
  {
  }

  /** A loop that goes into another round. */
  lemma NextRound<T>(e: seq<Entry<T>>, s: State, cyclic: bool)
    requires Proper(e, s.frames, s.item + 1) && Ends(s) && Top(s.frames).loops > 1
    ensures var x := NextState(s, |e|, cyclic);
            && Proper(e, x.frames, x.item) && Inside(e, x.frames, x.item)
            && Future(e, x.frames, x.item) == Future(e, s.frames, s.item + 1) != []
  {
    EndOfBody(e, s.frames);
    InsideFuture(e, NextState(s, |e|, cyclic).frames, Top(s.frames).startItem);
  }

  /** The list is done exactly when nothing is to come: next then starts over in a cyclic
      list and runs off the end of any other. In between it moves to the entry that
      is to come next. */
  lemma {:induction false} NextFuture<T>(e: seq<Entry<T>>, s: State, cyclic: bool)
    requires Proper(e, s.frames, s.item + 1)
    ensures var x := NextState(s, |e|, cyclic);
            if Future(e, s.frames, s.item + 1) == [] then x == State(if cyclic then 0 else |e|, [])
            else
              && Proper(e, x.frames, x.item) && Inside(e, x.frames, x.item)
              && Future(e, x.frames, x.item) == Future(e, s.frames, s.item + 1)
    decreases |s.frames|
  {
    if !Ends(s) {
      NextEntry(e, s, cyclic);
    } else if Top(s.frames).loops > 1 {
      NextRound(e, s, cyclic);
    } else {
      EndOfBody(e, s.frames);
      NextFuture(e, State(s.item, Pop(s.frames)), cyclic);
    }
  }

  lemma LoopUnrolls<T>(e: seq<Entry<T>>, i: int, j: int, offset: int, levels: int, rest: seq<Event>)
    requires 0 <= i < j <= |e| && levels > 0
    requires e[i].LoopStart? && e[i].repetitions >= 0 && 1 <= e[i].items < j - i
    ensures var k, size := i + 1 + e[i].items, e[i].size;
            Unroll(e, i, j, offset, levels, rest)
            == Unroll(e, i + 1, k, 0, levels - 1,
                      Repeat(e, i + 1, k, size, size, e[i].repetitions - 1, levels - 1,
                             Unroll(e, k, j, offset, levels, rest)))
  {
    var k, size := i + 1 + e[i].items, e[i].size;
    var after := Unroll(e, k, j, offset, levels, rest);
    assert Unroll(e, i, j, offset, levels, rest)
        == Repeat(e, i + 1, k, 0, size, Rounds(e[i].repetitions), levels - 1, after);
    if e[i].repetitions == 0 {
      assert Repeat(e, i + 1, k, size, size, -1, levels - 1, after) == after;
      assert Repeat(e, i + 1, k, 0 + size, size, 0, levels - 1, after) == after;
    }
  }

  lemma EnterProper<T>(e: seq<Entry<T>>, s: State)
    requires Proper(e, s.frames, s.item) && Inside(e, s.frames, s.item)
    requires 0 <= s.item < |e| && e[s.item].LoopStart? && |s.frames| < MAX_LOOP_LEVEL
    ensures var x := EnterState(s, e[s.item].items, e[s.item].repetitions, e[s.item].size);
            Proper(e, x.frames, x.item) && Inside(e, x.frames, x.item)
    ensures s.frames != [] ==> Top(s.frames).lastItem < |e|
    ensures 1 <= e[s.item].items < (if s.frames == [] then |e| else Top(s.frames).lastItem + 1) - s.item
  {
    var x := EnterState(s, e[s.item].items, e[s.item].repetitions, e[s.item].size);
    assert Pop(x.frames) == s.frames;
  }

  /** Entering a loop leaves what is to come as it is. */
  lemma EnterFuture<T>(e: seq<Entry<T>>, frames: seq<Frame>, i: int, f: Frame)
    requires 0 <= i < |e| && e[i].LoopStart? && |frames| < MAX_LOOP_LEVEL && e[i].repetitions >= 0
    requires 1 <= e[i].items < (if frames == [] then |e| else Top(frames).lastItem + 1) - i
    requires frames != [] ==> Top(frames).lastItem < |e|
    requires f == Frame(i + e[i].items, i + 1, e[i].repetitions, e[i].size, 0)
    ensures Future(e, frames + [f], i + 1) == Future(e, frames, i)
  {
    assert Pop(frames + [f]) == frames;
    var k, levels := f.lastItem + 1, MAX_LOOP_LEVEL - |frames|;
    assert Future(e, frames + [f], i + 1) == Unroll(e, i + 1, k, 0, levels - 1,
        Repeat(e, i + 1, k, f.sizeOfBody, f.sizeOfBody, f.loops - 1, levels - 1, Future(e, frames, k)));
    if frames == [] {
      LoopUnrolls(e, i, |e|, 0, MAX_LOOP_LEVEL, []);
    } else {
      var g := Top(frames);
      LoopUnrolls(e, i, g.lastItem + 1, g.offsetIncrement, MAX_LOOP_LEVEL - |frames|, FurtherRounds(e, frames));
    }
  }

  /** At a plain entry that entry comes next, with the offset of the innermost loop. */
  lemma ItemFuture<T>(e: seq<Entry<T>>, s: State)
    requires Proper(e, s.frames, s.item) && Inside(e, s.frames, s.item)
    requires 0 <= s.item < |e| && e[s.item].Item?
    ensures Proper(e, s.frames, s.item + 1)
    ensures Future(e, s.frames, s.item) == [Deliver(s.item, CurrentOffset(s.frames))] + Future(e, s.frames, s.item + 1)
  {
  }

  /** At a loop start that enter refuses its signal comes next. */
  lemma RefusedFuture<T>(e: seq<Entry<T>>, s: State)
    requires Proper(e, s.frames, s.item) && Inside(e, s.frames, s.item)
    requires 0 <= s.item < |e| && e[s.item].LoopStart? && (|s.frames| == MAX_LOOP_LEVEL || e[s.item].repetitions < 0)
    ensures Future(e, s.frames, s.item) != []
    ensures Future(e, s.frames, s.item)[0] ==
            Fail(if |s.frames| == MAX_LOOP_LEVEL then RepetitionOverflow else RepetitionValue)
  {
  }

  // ---------------------------------------------------------------- the class

  datatype Outcome = Moved | Signalled(signal: Signal)

  class LoopControl {
    const numberOfItems: int
    const workCyclic: bool
    const loopControl: array<Frame>
    var loopLevel: int
    var item: int

    constructor (numberOfItems: int, workCyclic: bool)
      ensures this.numberOfItems == numberOfItems && this.workCyclic == workCyclic
      ensures Valid() && Current() == State(-1, []) && fresh(loopControl)
    {
      this.numberOfItems, this.workCyclic := numberOfItems, workCyclic;
      loopControl := new Frame[MAX_LOOP_LEVEL](_ => Frame(0, 0, 0, 0, 0));
      loopLevel, item := -1, -1;
    }

    ghost predicate Valid()
      reads this
    {
      loopControl.Length == MAX_LOOP_LEVEL && -1 <= loopLevel < MAX_LOOP_LEVEL
    }

    ghost function Frames(): seq<Frame>
      requires Valid()
      reads this, loopControl
    {
      loopControl[..loopLevel + 1]
    }

    ghost function Current(): State
      requires Valid()
      reads this, loopControl
    {
      State(item, Frames())
    }

    /** The end of a body: into the next round, or out of the loop. */
    method EndBody() returns (again: bool)
      requires Valid() && loopLevel >= 0
      modifies `loopLevel, `item, loopControl
      ensures Valid() && loopLevel == if again then old(loopLevel) else old(loopLevel) - 1
      ensures var f := Top(old(Frames()));
              && again == (f.loops > 1)
              && Current() == if again then
                   State(f.startItem, Pop(old(Frames())) +
                     [f.(loops := f.loops - 1, offsetIncrement := f.offsetIncrement + f.sizeOfBody)])
                 else State(old(item), Pop(old(Frames())))
    {
      var f := loopControl[loopLevel];
      ghost var outer := Pop(Frames());
      loopControl[loopLevel] := f.(loops := f.loops - 1);
      again := loopControl[loopLevel].loops > 0;
      if again {
        item := f.startItem;
        loopControl[loopLevel] := f.(loops := f.loops - 1, offsetIncrement := f.offsetIncrement + f.sizeOfBody);
        assert Frames() == outer + [loopControl[loopLevel]];
      } else {
        loopLevel := loopLevel - 1;
        assert Frames() == outer;
      }
    }

    method Next() returns (i: int)
      requires Valid()
      modifies this, loopControl
      ensures Valid() && i == item
      ensures Current() == NextState(old(Current()), numberOfItems, workCyclic)
    {
      while loopLevel >= 0 && item == loopControl[loopLevel].lastItem
        invariant Valid()
        invariant NextState(Current(), numberOfItems, workCyclic) == NextState(old(Current()), numberOfItems, workCyclic)
        decreases loopLevel
      {
        var again := EndBody();
        if again {
          return item;
        }
      }
      item := item + 1;
      if workCyclic && item >= numberOfItems {
        item := 0;
      }
      i := item;
    }

    /** A signal leaves the item where it was, but the level has gone up. */
    method Enter(nbrOfItems: int, nbrOfRepetitions: int, sizeOfBody: int) returns (outcome: Outcome)
      requires Valid()
      modifies this, loopControl
      ensures outcome == Signalled(RepetitionOverflow) <==> |old(Frames())| == MAX_LOOP_LEVEL
      ensures outcome == Signalled(RepetitionValue) <==> |old(Frames())| < MAX_LOOP_LEVEL && nbrOfRepetitions < 0
      ensures outcome.Moved? ==>
          Valid() && Current() == EnterState(old(Current()), nbrOfItems, nbrOfRepetitions, sizeOfBody)
      ensures outcome.Signalled? ==> item == old(item) && loopLevel == old(loopLevel) + 1
      ensures outcome == Moved || outcome == Signalled(RepetitionOverflow) || outcome == Signalled(RepetitionValue)
    {
      ghost var s := Current();
      loopLevel := loopLevel + 1;
      if loopLevel == MAX_LOOP_LEVEL {
        return Signalled(RepetitionOverflow);
      }
      if nbrOfRepetitions < 0 {
        return Signalled(RepetitionValue);
      }
      loopControl[loopLevel] := Frame(item + nbrOfItems, item + 1, nbrOfRepetitions, sizeOfBody, 0);
      assert Frames() == s.frames + [loopControl[loopLevel]];
      item := item + 1;
      outcome := Moved;
    }

    method GetOffset() returns (result: int)
      requires Valid()
      ensures result == CurrentOffset(Frames())
    {
      result := 0;
      if loopLevel >= 0 {
        result := loopControl[loopLevel].offsetIncrement;
      }
    }
  }
}
