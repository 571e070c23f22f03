/** The transfer loop of DationPG::put and DationPG::get: data elements meet the formats of
    a list that starts over when it ends (DationPG.cc). */
module FormattedTransfer {
  import opened Loops

  /** A data entry is a scalar or an array of simple values. */
  datatype DataEntry = DataEntry(numberOfElements: int)

  datatype FormatEntry = FormatEntry(positioning: bool)

  type DataList = seq<Entry<DataEntry>>
  type FormatList = seq<Entry<FormatEntry>>

  /** One call of a positioning or of a data format. */
  datatype Action = Position(format: nat) | Transfer(element: nat, dataIndex: nat, offset: int, format: nat)

  datatype Transcript = Transcript(actions: seq<Action>, outcome: Outcome)

  /** What the data list asks for, value by value. */
  datatype Want = Value(element: nat, dataIndex: nat, offset: int) | EmptySlice | Broken(signal: Signal)

  function Values(element: nat, offset: int, first: nat, n: int): seq<Want>
    decreases n - first
  {
    if first >= n then [] else [Value(element, first, offset)] + Values(element, offset, first + 1, n)
  }

  /** An array stands for its elements. */
  function Expand(data: DataList, events: seq<Event>): seq<Want>
    decreases |events|
  {
    if events == [] then []
    else
      (match events[0]
       case Fail(signal) => [Broken(signal)]
       case Deliver(i, offset) =>
         if i < |data| && data[i].Item? && data[i].value.numberOfElements > 0 then
           Values(i, offset, 0, data[i].value.numberOfElements)
         else [EmptySlice])
      + Expand(data, events[1..])
  }

  /** The elements of an array are listed in the order of their indices. */
  lemma {:induction false} ValuesExact(element: nat, offset: int, first: nat, n: int)
    requires first <= n
    ensures var s := Values(element, offset, first, n);
            |s| == n - first && forall k :: 0 <= k < n - first ==> s[k] == Value(element, first + k, offset)
    decreases n - first
  {
    if first < n {
      ValuesExact(element, offset, first + 1, n);
      var s, rest := Values(element, offset, first, n), Values(element, offset, first + 1, n);
      forall k | 0 <= k < n - first ensures s[k] == Value(element, first + k, offset) {
        assert k > 0 ==> s[k] == rest[k - 1];
      }
    }
  }

  /** What one event of the data list asks for: the elements of the entry in the order of their
      indices, each with the offset of the event; or one refusal. */
  lemma ExpandOne(data: DataList, e: Event)
    ensures e.Fail? ==> Expand(data, [e]) == [Broken(e.signal)]
    ensures e.Deliver? && e.index < |data| && data[e.index].Item? ==>
        var n, s := data[e.index].value.numberOfElements, Expand(data, [e]);
        if n <= 0 then s == [EmptySlice]
        else |s| == n && forall k :: 0 <= k < n ==> s[k] == Value(e.index, k, e.offset)
  {
    assert [e][1..] == [] && Expand(data, []) == [];
    if e.Deliver? && e.index < |data| && data[e.index].Item? && data[e.index].value.numberOfElements > 0 {
      ValuesExact(e.index, e.offset, 0, data[e.index].value.numberOfElements);
    }
  }

  /** The events follow each other. */
  lemma {:induction false} ExpandAppend(data: DataList, a: seq<Event>, b: seq<Event>)
    ensures Expand(data, a + b) == Expand(data, a) + Expand(data, b)
    decreases |a|
  {
    if a == [] {
      assert a + b == b;
    } else {
      assert (a + b)[0] == a[0] && (a + b)[1..] == a[1..] + b;
      ExpandAppend(data, a[1..], b);
    }
  }

  predicate Positions(formats: FormatList, e: Event) {
    e.Deliver? && e.index < |formats| && formats[e.index].Item? && formats[e.index].value.positioning
  }

  /** There is a format that ends the search for the next data format. */
  predicate HasStop(formats: FormatList, round: seq<Event>) {
    round != [] && (!Positions(formats, round[0]) || HasStop(formats, round[1..]))
  }

  function Then(a: Action, t: Transcript): Transcript {
    t.(actions := [a] + t.actions)
  }

  /** The first thing that the data list asks for, if any, is refused before a format is looked
      at, or the search for a format ends. */
  predicate Served(wants: seq<Want>, round: seq<Event>, formats: FormatList) {
    wants == [] || wants[0].Broken? || HasStop(formats, round)
  }

  /** The reference: every value takes the positioning formats up to the next data format
      and that data format. `rest` is what is left of the current round of the format list,
      `round` a whole round. */
  function Pair(wants: seq<Want>, rest: seq<Event>, round: seq<Event>, formats: FormatList): Transcript
    requires Served(wants, round, formats)
    decreases |wants|, if HasStop(formats, rest) then 0 else 1, |rest|
  {
    if wants == [] then Transcript([], Moved)
    else if wants[0].Broken? then Transcript([], Signalled(wants[0].signal))
    else if rest == [] then Pair(wants, round, round, formats)
    else if rest[0].Fail? then Transcript([], Signalled(rest[0].signal))
    else if Positions(formats, rest[0]) then
      Then(Position(rest[0].index), Pair(wants, rest[1..], round, formats))
    else if wants[0].EmptySlice? then Transcript([], Signalled(BadArraySegment))
    else
      var w := wants[0];
      Then(Transfer(w.element, w.dataIndex, w.offset, rest[0].index), Pair(wants[1..], rest[1..], round, formats))
  }

  lemma InsideBounds<T>(e: seq<Entry<T>>, frames: seq<Frame>, i: int)
    requires Proper(e, frames, i) && Inside(e, frames, i)
    ensures 0 <= i < |e|
  {
  }

  // ---------------------------------------------------------------- what the pairing means

  /** The m-th event of a list that is read out and then repeated for ever. */
  function Endless(rest: seq<Event>, round: seq<Event>, m: nat): Event
    requires round != []
    decreases m, if rest == [] then 1 else 0
  {
    if m < |rest| then rest[m] else Endless(round, round, m - |rest|)
  }

  /** The search for a data format ends if and only if some format of a round ends it. */
  lemma SearchEndsExact(rest: seq<Event>, round: seq<Event>, formats: FormatList)
    requires round != []
    ensures (exists m: nat :: !Positions(formats, Endless(rest, round, m)))
        <==> HasStop(formats, rest) || HasStop(formats, round)
  {
    if HasStop(formats, rest) {
      var m := StopAt(formats, rest);
      assert !Positions(formats, Endless(rest, round, m));
    } else if HasStop(formats, round) {
      var m := StopAt(formats, round);
      SecondRound(rest, round, m);
      assert !Positions(formats, Endless(rest, round, |rest| + m));
    } else {
      forall m: nat ensures Positions(formats, Endless(rest, round, m)) {
        NeverStops(rest, round, formats, m);
      }
    }
  }

  lemma SecondRound(rest: seq<Event>, round: seq<Event>, m: nat)
    requires m < |round|
    ensures Endless(rest, round, |rest| + m) == round[m]
  {
    assert Endless(rest, round, |rest| + m) == Endless(round, round, m);
  }

  function StopAt(formats: FormatList, s: seq<Event>): (m: nat)
    requires HasStop(formats, s)
    ensures m < |s| && !Positions(formats, s[m])
  {
    if !Positions(formats, s[0]) then 0 else 1 + StopAt(formats, s[1..])
  }

  lemma {:induction false} NoStop(formats: FormatList, s: seq<Event>, m: nat)
    requires !HasStop(formats, s) && m < |s|
    ensures Positions(formats, s[m])
  {
    if m > 0 {
      NoStop(formats, s[1..], m - 1);
    }
  }

  lemma {:induction false} NeverStops(rest: seq<Event>, round: seq<Event>, formats: FormatList, m: nat)
    requires round != [] && !HasStop(formats, rest) && !HasStop(formats, round)
    ensures Positions(formats, Endless(rest, round, m))
    decreases m, if rest == [] then 1 else 0
  {
    if m < |rest| {
      NoStop(formats, rest, m);
    } else {
      NeverStops(round, round, formats, m - |rest|);
    }
  }

  /** The formats are applied in the order of the endless list, none left out: a positioning
      format by itself, any other with a value. */
  lemma {:induction false} FormatsInOrder(wants: seq<Want>, rest: seq<Event>, round: seq<Event>,
          formats: FormatList, m: nat)
    requires round != [] && Served(wants, round, formats) && m < |Pair(wants, rest, round, formats).actions|
    ensures var a, e := Pair(wants, rest, round, formats).actions[m], Endless(rest, round, m);
            e.Deliver? && a.format == e.index && (a.Position? <==> Positions(formats, e))
    decreases |wants|, if HasStop(formats, rest) then 0 else 1, |rest|
  {
    if rest == [] {
      FormatsInOrder(wants, round, round, formats, m);
    } else if m > 0 {
      var next := if Positions(formats, rest[0]) then wants else wants[1..];
      FormatsInOrder(next, rest[1..], round, formats, m - 1);
      assert Endless(rest, round, m) == Endless(rest[1..], round, m - 1);
    }
  }

  function Transferred(actions: seq<Action>): seq<Want> {
    if actions == [] then []
    else
      (match actions[0]
       case Position(_) => []
       case Transfer(i, k, offset, _) => [Value(i, k, offset)]) + Transferred(actions[1..])
  }

  predicate AllValues(wants: seq<Want>) {
    forall k :: 0 <= k < |wants| ==> wants[k].Value?
  }

  /** The values are transferred in order and each once. The transfer completes if and only if
      nothing in the data list is refused and no signal of the format list comes before. */
  lemma {:induction false} ValuesInOrder(wants: seq<Want>, rest: seq<Event>, round: seq<Event>, formats: FormatList)
    requires Served(wants, round, formats)
    ensures var t := Pair(wants, rest, round, formats);
            && Transferred(t.actions) <= wants
            && (t.outcome.Moved? <==> Transferred(t.actions) == wants && AllValues(wants))
            && (AllValues(wants) && !Signals(rest) && !Signals(round) ==> t.outcome.Moved?)
    decreases |wants|, if HasStop(formats, rest) then 0 else 1, |rest|
  {
    var t := Pair(wants, rest, round, formats);
    if wants == [] || wants[0].Broken? {
    } else if rest == [] {
      ValuesInOrder(wants, round, round, formats);
    } else if rest[0].Fail? {
      assert Signals(rest);
    } else {
      assert rest == [rest[0]] + rest[1..];
      SignalsAmong([rest[0]], rest[1..]);
      if Positions(formats, rest[0]) {
        ValuesInOrder(wants, rest[1..], round, formats);
        assert t.actions[1..] == Pair(wants, rest[1..], round, formats).actions;
      } else if wants[0].Value? {
        ValuesInOrder(wants[1..], rest[1..], round, formats);
        assert t.actions[1..] == Pair(wants[1..], rest[1..], round, formats).actions;
        assert wants == [wants[0]] + wants[1..];
      }
    }
  }

  /** Why a transfer ends with a signal: the data list refuses what it asks for next, or the
      format list refuses its next entry, or that is a data format and meets an empty slice. */
  lemma {:induction false} SignalExact(wants: seq<Want>, rest: seq<Event>, round: seq<Event>, formats: FormatList)
    requires round != [] && Served(wants, round, formats) && Pair(wants, rest, round, formats).outcome.Signalled?
    ensures var t := Pair(wants, rest, round, formats);
            var j, e, signal := |Transferred(t.actions)|, Endless(rest, round, |t.actions|), t.outcome.signal;
            && j < |wants|
            && if wants[j].Broken? then signal == wants[j].signal
               else if e.Fail? then signal == e.signal
               else !Positions(formats, e) && wants[j].EmptySlice? && signal == BadArraySegment
    decreases |wants|, if HasStop(formats, rest) then 0 else 1, |rest|
  {
    if wants != [] && !wants[0].Broken? {
      if rest == [] {
        SignalExact(wants, round, round, formats);
        EndlessRound(round, |Pair(wants, rest, round, formats).actions|);
      } else if !rest[0].Fail? && (Positions(formats, rest[0]) || wants[0].Value?) {
        var next := if Positions(formats, rest[0]) then wants else wants[1..];
        SignalExact(next, rest[1..], round, formats);
        var t, u := Pair(wants, rest, round, formats), Pair(next, rest[1..], round, formats);
        assert t.actions[1..] == u.actions;
        assert Endless(rest, round, |t.actions|) == Endless(rest[1..], round, |u.actions|);
      }
    }
  }

  lemma EndlessRound(round: seq<Event>, m: nat)
    requires round != []
    ensures Endless([], round, m) == Endless(round, round, m)
  {
  }

  // ---------------------------------------------------------------- walking a list

  /** Entry c.item is to be looked at next. */
  ghost predicate Ready<T>(c: LoopControl, e: seq<Entry<T>>)
    reads c, c.loopControl
  {
    c.Valid() && Proper(e, c.Frames(), c.item) && Inside(e, c.Frames(), c.item) && 0 <= c.item < |e|
  }

  /** Entry c.item has been delivered. */
  ghost predicate Delivered<T>(c: LoopControl, e: seq<Entry<T>>)
    reads c, c.loopControl
  {
    c.Valid() && Proper(e, c.Frames(), c.item + 1)
  }

  ghost function Coming<T>(c: LoopControl, e: seq<Entry<T>>): seq<Event>
    requires c.Valid()
    reads c, c.loopControl
  {
    Future(e, c.Frames(), c.item)
  }

  ghost function After<T>(c: LoopControl, e: seq<Entry<T>>): seq<Event>
    requires c.Valid()
    reads c, c.loopControl
  {
    Future(e, c.Frames(), c.item + 1)
  }

  ghost function Here(c: LoopControl): Event
    requires c.Valid() && c.item >= 0
    reads c, c.loopControl
  {
    Deliver(c.item, CurrentOffset(c.Frames()))
  }

  /** A loop that is entered: what is to come stays, and there is an entry to look at. */
  lemma EnterMoves<T>(e: seq<Entry<T>>, s: State, x: State)
    requires Proper(e, s.frames, s.item) && Inside(e, s.frames, s.item)
    requires 0 <= s.item < |e| && e[s.item].LoopStart? && |s.frames| < MAX_LOOP_LEVEL && e[s.item].repetitions >= 0
    requires x == EnterState(s, e[s.item].items, e[s.item].repetitions, e[s.item].size)
    ensures Proper(e, x.frames, x.item) && Inside(e, x.frames, x.item) && 0 <= x.item < |e|
    ensures Future(e, x.frames, x.item) == Future(e, s.frames, s.item)
  {
    EnterProper(e, s);
    EnterFuture(e, s.frames, s.item, Top(x.frames));
    InsideBounds(e, x.frames, x.item);
  }

  method EnterLoop<T>(c: LoopControl, e: seq<Entry<T>>) returns (outcome: Outcome)
    requires Ready(c, e) && e[c.item].LoopStart?
    modifies c, c.loopControl
    ensures outcome.Moved? ==> Ready(c, e) && c.item == old(c.item) + 1 && Coming(c, e) == old(Coming(c, e))
    ensures outcome.Signalled? ==> old(Coming(c, e)) != [] && old(Coming(c, e))[0] == Fail(outcome.signal)
  {
    var l := e[c.item];
    ghost var s := c.Current();
    if |s.frames| == MAX_LOOP_LEVEL || l.repetitions < 0 {
      RefusedFuture(e, s);
    } else {
      EnterMoves(e, s, EnterState(s, l.items, l.repetitions, l.size));
    }
    outcome := c.Enter(l.items, l.repetitions, l.size);
  }

  /** The loops that start at the current item are entered. */
  method EnterLoops<T>(c: LoopControl, e: seq<Entry<T>>) returns (outcome: Outcome)
    requires Ready(c, e)
    modifies c, c.loopControl
    ensures outcome.Moved? ==>
        && Delivered(c, e) && 0 <= c.item < |e| && e[c.item].Item?
        && old(Coming(c, e)) == [Here(c)] + After(c, e)
    ensures outcome.Signalled? ==> old(Coming(c, e)) != [] && old(Coming(c, e))[0] == Fail(outcome.signal)
  {
    while e[c.item].LoopStart?
      invariant Ready(c, e) && Coming(c, e) == old(Coming(c, e))
      decreases |e| - c.item
    {
      outcome := EnterLoop(c, e);
      if outcome.Signalled? {
        return;
      }
    }
    ItemFuture(e, c.Current());
    outcome := Moved;
  }

  /** A round of a cyclic list follows its end. */
  function Wrapped(rest: seq<Event>, round: seq<Event>): seq<Event> {
    if rest == [] then round else rest
  }

  /** next and the loops that start there, in a cyclic list. */
  method NextCyclic<T>(c: LoopControl, e: seq<Entry<T>>) returns (outcome: Outcome)
    requires Delivered(c, e) && c.workCyclic && c.numberOfItems == |e| > 0 && WellNested(e, 0, |e|)
    modifies c, c.loopControl
    ensures outcome.Moved? ==>
        && Delivered(c, e) && 0 <= c.item < |e| && e[c.item].Item?
        && Wrapped(old(After(c, e)), Whole(e)) == [Here(c)] + After(c, e)
    ensures outcome.Signalled? ==>
        var rest := Wrapped(old(After(c, e)), Whole(e)); rest != [] && rest[0] == Fail(outcome.signal)
  {
    NextFuture(e, c.Current(), true);
    var _ := c.Next();
    InsideBounds(e, c.Frames(), c.item);
    outcome := EnterLoops(c, e);
  }

  /** next in a list that does not start over. */
  method NextPlain<T>(c: LoopControl, e: seq<Entry<T>>) returns (i: int)
    requires Delivered(c, e) && !c.workCyclic && c.numberOfItems == |e|
    modifies c, c.loopControl
    ensures i == c.item <= |e| && c.Valid()
    ensures i < |e| <==> old(After(c, e)) != []
    ensures i < |e| ==> Ready(c, e) && Coming(c, e) == old(After(c, e))
  {
    NextFuture(e, c.Current(), false);
    i := c.Next();
    if i < |e| {
      InsideBounds(e, c.Frames(), i);
    }
  }

  // ---------------------------------------------------------------- put and get

  /** What has been done, and then what is to be done. */
  function Resumed(done: seq<Action>, t: Transcript): Transcript {
    t.(actions := done + t.actions)
  }

  lemma ExpandHead(data: DataList, i: nat, offset: int, rest: seq<Event>)
    requires i < |data| && data[i].Item?
    ensures var n := data[i].value.numberOfElements;
            Expand(data, [Deliver(i, offset)] + rest)
            == (if n > 0 then Values(i, offset, 0, n) else [EmptySlice]) + Expand(data, rest)
  {
    assert ([Deliver(i, offset)] + rest)[1..] == rest;
  }

  lemma PairAfterPosition(done: seq<Action>, wants: seq<Want>, e: Event, rest: seq<Event>, round: seq<Event>,
                          formats: FormatList)
    requires HasStop(formats, round) && wants != [] && !wants[0].Broken? && Positions(formats, e)
    ensures Resumed(done, Pair(wants, [e] + rest, round, formats))
         == Resumed(done + [Position(e.index)], Pair(wants, Wrapped(rest, round), round, formats))
  {
    assert ([e] + rest)[1..] == rest;
    var t := Pair(wants, rest, round, formats);
    assert done + ([Position(e.index)] + t.actions) == done + [Position(e.index)] + t.actions;
  }

  /** The search for a data format comes nearer to one. */
  lemma Progress(e: Event, rest: seq<Event>, round: seq<Event>, formats: FormatList)
    requires HasStop(formats, round) && Positions(formats, e)
    ensures HasStop(formats, [e] + rest) ==> HasStop(formats, Wrapped(rest, round)) && rest != []
    ensures rest == [] ==> HasStop(formats, Wrapped(rest, round))
  {
    assert ([e] + rest)[1..] == rest;
    assert !HasStop(formats, []);
  }

  lemma PairTransfer(done: seq<Action>, w: Want, wants: seq<Want>, e: Event, rest: seq<Event>, round: seq<Event>,
                     formats: FormatList)
    requires HasStop(formats, round) && w.Value? && e.Deliver? && !Positions(formats, e)
    ensures Resumed(done, Pair([w] + wants, [e] + rest, round, formats))
         == Resumed(done + [Transfer(w.element, w.dataIndex, w.offset, e.index)], Pair(wants, rest, round, formats))
  {
    assert ([e] + rest)[1..] == rest && ([w] + wants)[1..] == wants;
    var a, t := Transfer(w.element, w.dataIndex, w.offset, e.index), Pair(wants, rest, round, formats);
    assert done + ([a] + t.actions) == done + [a] + t.actions;
  }

  lemma PairSignal(done: seq<Action>, wants: seq<Want>, rest: seq<Event>, round: seq<Event>, formats: FormatList)
    requires HasStop(formats, round) && wants != [] && !wants[0].Broken? && rest != [] && rest[0].Fail?
    ensures Resumed(done, Pair(wants, rest, round, formats)) == Transcript(done, Signalled(rest[0].signal))
  {
  }

  class DationPG {
    var actions: seq<Action>             // the formats applied so far
    var formatItem: int

    constructor ()
    {
      actions, formatItem := [], -1;
    }

    ghost predicate Repeated(c: LoopControl, formats: FormatList)
      reads c, c.loopControl
    {
      Delivered(c, formats) && c.workCyclic && c.numberOfItems == |formats| && WellNested(formats, 0, |formats|)
    }

    ghost predicate CyclicList(c: LoopControl, formats: FormatList)
      reads c, c.loopControl
    {
      Repeated(c, formats) && HasStop(formats, Whole(formats))
    }

    /** The format list stands at a format. */
    ghost predicate AtFormat(c: LoopControl, formats: FormatList)
      reads this, c, c.loopControl
    {
      CyclicList(c, formats) && 0 <= formatItem == c.item < |formats| && formats[formatItem].Item?
    }

    /** What comes when the transfer goes on with `rest` of the format list. */
    ghost function Onward(wants: seq<Want>, rest: seq<Event>, formats: FormatList): Transcript
      requires WellNested(formats, 0, |formats|) && Served(wants, Whole(formats), formats)
      reads this
    {
      Resumed(actions, Pair(wants, rest, Whole(formats), formats))
    }

    method NextFormat(formatLoop: LoopControl, formats: FormatList, ghost wants: seq<Want>) returns (outcome: Outcome)
      requires CyclicList(formatLoop, formats) && wants != [] && !wants[0].Broken?
      modifies this`formatItem, formatLoop, formatLoop.loopControl
      ensures outcome.Moved? ==>
          && AtFormat(formatLoop, formats)
          && Wrapped(old(After(formatLoop, formats)), Whole(formats)) == [Here(formatLoop)] + After(formatLoop, formats)
      ensures outcome.Signalled? ==>
          Transcript(actions, outcome) == Onward(wants, old(After(formatLoop, formats)), formats)
    {
      ghost var rest := Wrapped(After(formatLoop, formats), Whole(formats));
      outcome := NextCyclic(formatLoop, formats);
      if outcome.Signalled? {
        PairSignal(actions, wants, rest, Whole(formats), formats);
        return;
      }
      formatItem := formatLoop.item;
    }

    /** applyAllPositioningFormats: on to the next data format. */
    method ApplyAllPositioningFormats(formatLoop: LoopControl, formats: FormatList, ghost wants: seq<Want>)
      returns (outcome: Outcome)
      requires CyclicList(formatLoop, formats) && wants != [] && !wants[0].Broken?
      modifies this, formatLoop, formatLoop.loopControl
      ensures outcome.Moved? ==>
          && AtFormat(formatLoop, formats) && !formats[formatItem].value.positioning
          && Onward(wants, [Here(formatLoop)] + After(formatLoop, formats), formats)
             == old(Onward(wants, After(formatLoop, formats), formats))
      ensures outcome.Signalled? ==>
          Transcript(actions, outcome) == old(Onward(wants, After(formatLoop, formats), formats))
    {
      ghost var target := Onward(wants, After(formatLoop, formats), formats);
      outcome := NextFormat(formatLoop, formats, wants);
      if outcome.Signalled? {
        return;
      }
      ghost var rest := [Here(formatLoop)] + After(formatLoop, formats);
      while formats[formatItem].value.positioning
        invariant AtFormat(formatLoop, formats) && rest == [Here(formatLoop)] + After(formatLoop, formats)
        invariant Onward(wants, rest, formats) == target
        decreases if HasStop(formats, rest) then 0 else 1, |rest|
      {
        PairAfterPosition(actions, wants, Here(formatLoop), After(formatLoop, formats), Whole(formats), formats);
        Progress(Here(formatLoop), After(formatLoop, formats), Whole(formats), formats);
        rest := Wrapped(After(formatLoop, formats), Whole(formats));
        actions := actions + [Position(formatItem)];
        outcome := NextFormat(formatLoop, formats, wants);
        if outcome.Signalled? {
          return;
        }
      }
      outcome := Moved;
    }

    /** putDataFormat or getDataFormat for one value. */
    method TransferValue(formatLoop: LoopControl, formats: FormatList, w: Want, ghost wants: seq<Want>)
      requires AtFormat(formatLoop, formats) && !formats[formatItem].value.positioning && w.Value?
      modifies this`actions
      ensures AtFormat(formatLoop, formats)
      ensures Onward(wants, After(formatLoop, formats), formats)
           == old(Onward([w] + wants, [Here(formatLoop)] + After(formatLoop, formats), formats))
    {
      PairTransfer(actions, w, wants, Here(formatLoop), After(formatLoop, formats), Whole(formats), formats);
      actions := actions + [Transfer(w.element, w.dataIndex, w.offset, formatItem)];
    }

    /** The elements of one data entry, the first of which has its format. */
    method TransferValues(formatLoop: LoopControl, formats: FormatList, i: nat, n: int, offset: int,
            ghost wants: seq<Want>)
      returns (outcome: Outcome)
      requires AtFormat(formatLoop, formats) && !formats[formatItem].value.positioning && n > 0
      modifies this, formatLoop, formatLoop.loopControl
      ensures outcome.Moved? ==>
          && CyclicList(formatLoop, formats)
          && Onward(wants, After(formatLoop, formats), formats)
             == old(Onward(Values(i, offset, 0, n) + wants, [Here(formatLoop)] + After(formatLoop, formats), formats))
      ensures outcome.Signalled? ==>
          Transcript(actions, outcome)
          == old(Onward(Values(i, offset, 0, n) + wants, [Here(formatLoop)] + After(formatLoop, formats), formats))
    {
      ghost var target := Onward(Values(i, offset, 0, n) + wants, [Here(formatLoop)] + After(formatLoop, formats), formats);
      outcome := Moved;
      var dataIndex := 0;
      while dataIndex < n
        invariant 0 <= dataIndex <= n && CyclicList(formatLoop, formats) && outcome.Moved?
        invariant dataIndex < n ==>
            && AtFormat(formatLoop, formats) && !formats[formatItem].value.positioning
            && Onward(Values(i, offset, dataIndex, n) + wants, [Here(formatLoop)] + After(formatLoop, formats), formats)
               == target
        invariant dataIndex == n ==> Onward(wants, After(formatLoop, formats), formats) == target
      {
        ghost var more := Values(i, offset, dataIndex + 1, n) + wants;
        assert Values(i, offset, dataIndex, n) + wants == [Value(i, dataIndex, offset)] + more;
        TransferValue(formatLoop, formats, Value(i, dataIndex, offset), more);
        if dataIndex + 1 < n {
          outcome := ApplyAllPositioningFormats(formatLoop, formats, more);
          if outcome.Signalled? {
            return;
          }
        } else {
          assert more == wants;
        }
        dataIndex := dataIndex + 1;
      }
    }

    /** All values of data entry i. */
    method TransferEntry(formatLoop: LoopControl, data: DataList, formats: FormatList, i: nat, offset: int,
                         ghost rest: seq<Event>)
      returns (outcome: Outcome)
      requires CyclicList(formatLoop, formats) && i < |data| && data[i].Item?
      modifies this, formatLoop, formatLoop.loopControl
      ensures outcome.Moved? ==>
          && CyclicList(formatLoop, formats)
          && Onward(Expand(data, rest), After(formatLoop, formats), formats)
             == old(Onward(Expand(data, [Deliver(i, offset)] + rest), After(formatLoop, formats), formats))
      ensures outcome.Signalled? ==>
          Transcript(actions, outcome)
          == old(Onward(Expand(data, [Deliver(i, offset)] + rest), After(formatLoop, formats), formats))
    {
      var n := data[i].value.numberOfElements;
      ghost var wants := Expand(data, [Deliver(i, offset)] + rest);
      ExpandHead(data, i, offset, rest);
      outcome := ApplyAllPositioningFormats(formatLoop, formats, wants);
      if outcome.Signalled? {
        return;
      }
      if n <= 0 {
        return Signalled(BadArraySegment);
      }
      outcome := TransferValues(formatLoop, formats, i, n, offset, Expand(data, rest));
    }

    /** The loops that start here, and the offset of the element behind them. */
    method StartElement(dataLoop: LoopControl, data: DataList) returns (outcome: Outcome, offset: int)
      requires Ready(dataLoop, data)
      modifies dataLoop, dataLoop.loopControl
      ensures outcome.Moved? ==>
          && Delivered(dataLoop, data) && 0 <= dataLoop.item < |data| && data[dataLoop.item].Item?
          && old(Coming(dataLoop, data)) == [Deliver(dataLoop.item, offset)] + After(dataLoop, data)
      ensures var wants := Expand(data, old(Coming(dataLoop, data)));
              wants != [] && if outcome.Moved? then !wants[0].Broken? else wants[0] == Broken(outcome.signal)
    {
      offset := 0;
      outcome := EnterLoops(dataLoop, data);
      if outcome.Moved? {
        offset := dataLoop.GetOffset();
        ExpandHead(data, dataLoop.item, offset, After(dataLoop, data));
      }
    }

    /** One round of the data loop, up to the call of next. */
    method TransferElement(dataLoop: LoopControl, formatLoop: LoopControl, data: DataList, formats: FormatList)
      returns (outcome: Outcome)
      requires Ready(dataLoop, data) && Repeated(formatLoop, formats)
      requires Served(Expand(data, Coming(dataLoop, data)), Whole(formats), formats)
      requires dataLoop != formatLoop && dataLoop.loopControl != formatLoop.loopControl
      modifies this, dataLoop, dataLoop.loopControl, formatLoop, formatLoop.loopControl
      ensures outcome.Moved? ==>
          && Delivered(dataLoop, data) && CyclicList(formatLoop, formats)
          && |After(dataLoop, data)| < |old(Coming(dataLoop, data))|
          && Onward(Expand(data, After(dataLoop, data)), After(formatLoop, formats), formats)
             == old(Onward(Expand(data, Coming(dataLoop, data)), After(formatLoop, formats), formats))
      ensures outcome.Signalled? ==>
          Transcript(actions, outcome)
          == old(Onward(Expand(data, Coming(dataLoop, data)), After(formatLoop, formats), formats))
    {
      var offset;
      outcome, offset := StartElement(dataLoop, data);
      if outcome.Signalled? {
        return;
      }
      outcome := TransferEntry(formatLoop, data, formats, dataLoop.item, offset, After(dataLoop, data));
    }

    /** What is left of the data list when the loop tests for its end. */
    ghost function Left(dataLoop: LoopControl, data: DataList): seq<Event>
      requires dataLoop.Valid()
      reads dataLoop, dataLoop.loopControl
    {
      if dataLoop.item < |data| then Coming(dataLoop, data) else []
    }

    ghost predicate AtElement(dataLoop: LoopControl, data: DataList)
      reads dataLoop, dataLoop.loopControl
    {
      && dataLoop.Valid() && !dataLoop.workCyclic && dataLoop.numberOfItems == |data|
      && (dataLoop.item < |data| ==> Ready(dataLoop, data))
    }

    method TransferAndNext(dataLoop: LoopControl, formatLoop: LoopControl, data: DataList, formats: FormatList)
      returns (outcome: Outcome)
      requires AtElement(dataLoop, data) && dataLoop.item < |data| && Repeated(formatLoop, formats)
      requires Served(Expand(data, Left(dataLoop, data)), Whole(formats), formats)
      requires dataLoop != formatLoop && dataLoop.loopControl != formatLoop.loopControl
      modifies this, dataLoop, dataLoop.loopControl, formatLoop, formatLoop.loopControl
      ensures outcome.Moved? ==>
          && AtElement(dataLoop, data) && CyclicList(formatLoop, formats)
          && |Left(dataLoop, data)| < |old(Left(dataLoop, data))|
          && Onward(Expand(data, Left(dataLoop, data)), After(formatLoop, formats), formats)
             == old(Onward(Expand(data, Left(dataLoop, data)), After(formatLoop, formats), formats))
      ensures outcome.Signalled? ==>
          Transcript(actions, outcome)
          == old(Onward(Expand(data, Left(dataLoop, data)), After(formatLoop, formats), formats))
    {
      outcome := TransferElement(dataLoop, formatLoop, data, formats);
      if outcome.Moved? {
        var _ := NextPlain(dataLoop, data);
      }
    }

    /** The data loop. */
    method TransferList(dataLoop: LoopControl, formatLoop: LoopControl, data: DataList, formats: FormatList)
      returns (outcome: Outcome)
      requires AtElement(dataLoop, data) && Repeated(formatLoop, formats)
      requires Served(Expand(data, Left(dataLoop, data)), Whole(formats), formats)
      requires dataLoop != formatLoop && dataLoop.loopControl != formatLoop.loopControl
      modifies this, dataLoop, dataLoop.loopControl, formatLoop, formatLoop.loopControl
      ensures Transcript(actions, outcome)
           == old(Onward(Expand(data, Left(dataLoop, data)), After(formatLoop, formats), formats))
    {
      ghost var target := Onward(Expand(data, Left(dataLoop, data)), After(formatLoop, formats), formats);
      outcome := Moved;
      while dataLoop.item < |data|
        invariant outcome.Moved? && AtElement(dataLoop, data) && Repeated(formatLoop, formats)
        invariant Served(Expand(data, Left(dataLoop, data)), Whole(formats), formats)
        invariant Onward(Expand(data, Left(dataLoop, data)), After(formatLoop, formats), formats) == target
        decreases |Left(dataLoop, data)|
      {
        outcome := TransferAndNext(dataLoop, formatLoop, data, formats);
        if outcome.Signalled? {
          return;
        }
      }
      assert Onward([], After(formatLoop, formats), formats) == Transcript(actions, Moved);
    }

    /** put and get. */
    method TransferAll(data: DataList, formats: FormatList) returns (outcome: Outcome)
      requires WellNested(data, 0, |data|) && WellNested(formats, 0, |formats|)
      requires Served(Expand(data, Whole(data)), Whole(formats), formats)
      modifies this
      ensures Transcript(actions, outcome) == Pair(Expand(data, Whole(data)), Whole(formats), Whole(formats), formats)
    {
      actions, formatItem := [], -1;
      var formatLoop := new LoopControl(|formats|, true);
      var dataLoop := new LoopControl(|data|, false);
      assert Resumed([], Pair(Expand(data, Whole(data)), Whole(formats), Whole(formats), formats))
          == Pair(Expand(data, Whole(data)), Whole(formats), Whole(formats), formats);
      var _ := NextPlain(dataLoop, data);
      outcome := TransferList(dataLoop, formatLoop, data, formats);
    }
  }
}
