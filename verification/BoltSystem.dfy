/** The operations of class Bolt as the code runs them: loops over the bolts of a request
    and along the links of the wait queue (Bolt.cc). */
module BoltSystem {
  import opened Bolts
  import opened TaskQueue

  datatype Outcome = Granted | Queued | DuplicateSignal | StateSignal | TooManySignal

  class System {
    var state: map<BoltId, BoltState>
    var enters: map<BoltId, nat>         // nbrOfEnterOperations
    ghost var holders: map<BoltId, Holders>
    const waiters: PriorityQueue

    constructor ()
      ensures Valid() && W() == INITIAL && fresh(waiters)
    {
      state, enters, holders := map[], map[], map[];
      waiters := new PriorityQueue();
    }

    ghost predicate Valid()
      reads waiters, waiters.tasks
    {
      waiters.Valid()
    }

    /** The bolts with a queue beside them. */
    ghost function Beside(q: seq<Request>): World
      reads this
    {
      World(state, enters, holders, q)
    }

    ghost function W(): World
      reads this, waiters
    {
      Beside(waiters.requests)
    }

    /** Some counter is at its maximum. */
    ghost predicate Full()
      reads this
    {
      exists b: BoltId :: Enters(b) == UINT32_MAX
    }

    function State(b: BoltId): BoltState
      reads this
    {
      if b in state then state[b] else Free
    }

    function Enters(b: BoltId): nat
      reads this
    {
      if b in enters then enters[b] else 0
    }

    /** The first loop of check. */
    method HasDuplicate(bolts: seq<BoltId>) returns (duplicate: bool)
      ensures duplicate == !NoDuplicates(bolts)
    {
      var i := 0;
      while i < |bolts| - 1
        invariant 0 <= i <= |bolts|
        invariant forall k, j :: 0 <= k < i && k < j < |bolts| ==> bolts[k] != bolts[j]
      {
        var j := i + 1;
        while j < |bolts|
          invariant i < j <= |bolts|
          invariant forall k :: i < k < j ==> bolts[i] != bolts[k]
        {
          if bolts[i] == bolts[j] {
            return true;
          }
          j := j + 1;
        }
        i := i + 1;
      }
      duplicate := false;
    }

    /** The second loop of check. */
    method WouldBlock(op: Operation, bolts: seq<BoltId>) returns (blocked: bool)
      ensures blocked == Blocked(W(), op, bolts)
    {
      blocked := false;
      var i := 0;
      while i < |bolts|
        invariant 0 <= i <= |bolts|
        invariant blocked == exists k :: 0 <= k < i && BoltBlocks(W().State(bolts[k]), op)
      {
        if State(bolts[i]) == Reserved || (State(bolts[i]) == Entered && op == Reserve) {
          blocked := true;
        }
        assert W().State(bolts[i]) == State(bolts[i]);
        i := i + 1;
      }
    }

    /** One round of the granting loops. A counter at its maximum stops it with a signal. */
    method TakeOne(t: Task, op: Operation, b: BoltId) returns (outcome: Outcome)
      modifies this`state, this`enters, this`holders
      ensures outcome == if op == Enter && old(Enters(b)) == UINT32_MAX then TooManySignal else Granted
      ensures outcome.Granted? ==> Beside([]) == GrantOne(old(Beside([])), t, op, b)
      ensures outcome.TooManySignal? ==> Full()
    {
      ghost var h := Beside([]).Holding(b);
      assert Beside([]).Enters(b) == Enters(b);
      state := state[b := if op == Enter then Entered else Reserved];
      if op == Enter {
        if Enters(b) == UINT32_MAX {
          return TooManySignal;
        }
        enters := enters[b := Enters(b) + 1];
        holders := holders[b := h.(entered := h.entered + [t])];
      } else {
        holders := holders[b := h.(reserved := h.reserved + [t])];
      }
      outcome := Granted;
    }

    /** The granting loops. */
    method TakeBolts(t: Task, op: Operation, bolts: seq<BoltId>) returns (outcome: Outcome)
      modifies this`state, this`enters, this`holders
      ensures outcome.Granted? || outcome.TooManySignal?
      ensures outcome.Granted? ==> Beside([]) == Grant(old(Beside([])), t, op, bolts)
      ensures outcome.TooManySignal? ==> op == Enter && Full()
    {
      ghost var w := Beside([]);
      outcome := Granted;
      var i := 0;
      while i < |bolts|
        invariant 0 <= i <= |bolts| && outcome.Granted? && Beside([]) == Grant(w, t, op, bolts[..i])
      {
        assert bolts[..i + 1][..i] == bolts[..i];
        outcome := TakeOne(t, op, bolts[i]);
        if outcome.TooManySignal? {
          return;
        }
        i := i + 1;
      }
      assert bolts[..i] == bolts;
    }

    /** A blocked task joins the queue with what it asked for. */
    method Enqueue(me: TaskCommon, r: Request)
      requires Valid() && me !in waiters.tasks && r.prio == me.prio
      modifies waiters, waiters.Members(), me`next, me`why
      ensures Valid() && me in waiters.tasks
      ensures waiters.requests == Insert(old(waiters.requests), r)
    {
      me.why := r;
      waiters.InsertTask(me);
    }

    /** enterOrReserve. The task is running, so it is in no queue. */
    method EnterOrReserve(me: TaskCommon, op: Operation, bolts: seq<BoltId>) returns (outcome: Outcome)
      requires Valid() && me !in waiters.tasks
      modifies this, waiters, waiters.Members(), me`next, me`why
      ensures Valid()
      ensures outcome.TooManySignal? || W() == Step(old(W()), Ask(Request(me.task, me.prio, op, bolts)))
      ensures outcome.DuplicateSignal? <==> op.Reserve? && !NoDuplicates(bolts)
      ensures outcome.Queued? <==> !outcome.DuplicateSignal? && Blocked(old(W()), op, bolts)
      ensures outcome.Queued? <==> me in waiters.tasks
      ensures outcome.TooManySignal? ==> op == Enter && Full()
      ensures !outcome.StateSignal?
    {
      if op == Reserve {
        var duplicate := HasDuplicate(bolts);
        if duplicate {
          return DuplicateSignal;
        }
      }
      var wouldBlock := WouldBlock(op, bolts);
      if !wouldBlock {
        GrantDespiteQueue(Beside([]), waiters.requests, me.task, op, bolts);
        outcome := TakeBolts(me.task, op, bolts);
      } else {
        Enqueue(me, Request(me.task, me.prio, op, bolts));
        outcome := Queued;
      }
    }

    /** One bolt is given back; the last ENTER frees it. */
    method GiveOne(t: Task, op: Operation, b: BoltId)
      requires State(b) == Expected(op)
      modifies this`state, this`enters, this`holders
      ensures Beside([]) == ReleaseOne(old(Beside([])), t, op, b)
    {
      ghost var h := Beside([]).Holding(b);
      assert Beside([]).Enters(b) == Enters(b);
      if op == Enter {
        enters := enters[b := Decrement(Enters(b))];
        state := state[b := if Enters(b) == 0 then Free else Entered];
        holders := holders[b := h.(entered := Without(h.entered, t))];
      } else {
        state := state[b := Free];
        holders := holders[b := h.(reserved := Without(h.reserved, t))];
      }
    }

    /** The first loop of leaveOrFree; false is the state signal. */
    method GiveBolts(t: Task, op: Operation, bolts: seq<BoltId>) returns (ok: bool)
      modifies this`state, this`enters, this`holders
      ensures (Beside([]), ok) == Release(old(Beside([])), t, op, bolts)
    {
      ghost var w := Beside([]);
      var i := 0;
      while i < |bolts|
        invariant 0 <= i <= |bolts| && (Beside([]), true) == Release(w, t, op, bolts[..i])
      {
        var b := bolts[i];
        assert bolts[..i + 1][..i] == bolts[..i];
        assert Beside([]).State(b) == State(b);
        if State(b) != Expected(op) {
          ReleaseStops(w, t, op, bolts, i + 1);
          return false;
        }
        GiveOne(t, op, b);
        i := i + 1;
      }
      assert bolts[..i] == bolts;
      ok := true;
    }

    /** The grant of the queued task t, which leaves the queue and with it its link. */
    method GrantQueued(t: TaskCommon, ghost k: nat) returns (outcome: Outcome)
      requires Valid() && k < |waiters.tasks| && t == waiters.tasks[k]
      modifies this`state, this`enters, this`holders, waiters, waiters.Members()
      ensures outcome.Granted? || outcome.TooManySignal?
      ensures waiters.Members() <= old(waiters.Members())
      ensures Valid() && (outcome.TooManySignal? ==> old(t.why.op) == Enter && Full())
      ensures outcome.Granted? ==>
          var r := old(waiters.requests[k]);
          && t.next == null
          && W() == Grant(old(W()), r.task, r.op, r.bolts).(waiters := Drop(old(waiters.requests), k))
    {
      GrantDespiteQueue(Beside([]), waiters.requests, t.why.task, t.why.op, t.why.bolts);
      outcome := TakeBolts(t.why.task, t.why.op, t.why.bolts);
      if outcome.Granted? {
        ghost var was := waiters.tasks;
        var _, j := waiters.Remove(t);
        assert was[j] == was[k];
      }
    }

    /** One round of a scan, at the task t. After a grant its link leads nowhere. */
    method Examine(t: TaskCommon, op: Operation, ghost i: nat) returns (waits: bool, ghost over: bool, outcome: Outcome)
      requires Valid() && i < |waiters.tasks| && t == waiters.tasks[i]
      requires i <= First(W(), waiters.requests, op)
      modifies this`state, this`enters, this`holders, waiters, waiters.Members()
      ensures waiters.Members() <= old(waiters.Members())
      ensures Valid() && (outcome.Granted? || (outcome.TooManySignal? && op == Enter && Full()))
      ensures outcome.Granted? && over ==>
          && t.next == null && !waits
          && i == First(old(W()), old(waiters.requests), op) && W() == Pass(old(W()), op).0
      ensures outcome.Granted? && !over ==>
          && W() == old(W()) && waiters.tasks == old(waiters.tasks) && t.next == waiters.At(i + 1)
          && i < First(W(), waiters.requests, op) && waits == (waiters.requests[i].op == op)
    {
      waits, over, outcome := false, false, Granted;
      var wouldBlock := WouldBlock(t.why.op, t.why.bolts);
      if t.why.op == op {
        if !wouldBlock {
          over := true;
          outcome := GrantQueued(t, i);
        } else {
          waits := true;
        }
      }
    }

    /** A scan of the wait queue for requests of one kind, along the links of the tasks. */
    method ScanQueue(op: Operation) returns (waiting: bool, outcome: Outcome)
      requires Valid()
      modifies this`state, this`enters, this`holders, waiters, waiters.Members()
      ensures waiters.Members() <= old(waiters.Members())
      ensures Valid() && (outcome.Granted? || (outcome.TooManySignal? && op == Enter && Full()))
      ensures outcome.Granted? ==> (W(), waiting) == Pass(old(W()), op)
    {
      ghost var w := W();
      ghost var q := w.waiters;
      ghost var i, over := 0, false;
      waiting, outcome := false, Granted;
      var t := waiters.GetHead();
      while t != null
        invariant waiters.Members() <= old(waiters.Members())
        invariant Valid() && outcome.Granted? && i <= |q| && i <= First(w, q, op) && (waiting <==> SomeOf(q[..i], op))
        invariant !over ==> W() == w && t == waiters.At(i)
        invariant over ==> t == null && i == First(w, q, op) && W() == Pass(w, op).0
        decreases if t == null then 0 else 1 + |q| - i
      {
        SomeOfNext(q, i, op);
        var waits;
        waits, over, outcome := Examine(t, op, i);
        if outcome.TooManySignal? {
          return;
        }
        waiting := waiting || waits;
        t := waiters.GetNext(t);
        i := if over then i else i + 1;
      }
      assert i == First(w, q, op);
    }

    /** The two scans. */
    method WakeUp() returns (outcome: Outcome)
      requires Valid()
      modifies this`state, this`enters, this`holders, waiters, waiters.Members()
      ensures Valid() && (outcome.Granted? || (outcome.TooManySignal? && Full()))
      ensures outcome.Granted? ==> W() == Wake(old(W()))
    {
      var reserveIsWaiting;
      reserveIsWaiting, outcome := ScanQueue(Reserve);
      if !reserveIsWaiting {
        var _, o := ScanQueue(Enter);
        outcome := o;
      }
    }

    /** leaveOrFree. The state signal leaves the earlier bolts given back and the queue alone. */
    method LeaveOrFree(t: Task, op: Operation, bolts: seq<BoltId>) returns (outcome: Outcome)
      requires Valid()
      modifies this`state, this`enters, this`holders, waiters, waiters.Members()
      ensures Valid()
      ensures outcome.TooManySignal? || W() == Step(old(W()), GiveBack(t, op, bolts))
      ensures outcome.StateSignal? <==> !Release(old(W()), t, op, bolts).1
      ensures outcome.Granted? || outcome.StateSignal? || (outcome.TooManySignal? && Full())
    {
      ReleaseDespiteQueue(Beside([]), waiters.requests, t, op, bolts);
      var ok := GiveBolts(t, op, bolts);
      assert (W(), ok) == Release(old(W()), t, op, bolts);
      if ok {
        outcome := WakeUp();
      } else {
        outcome := StateSignal;
      }
    }
  }

  lemma SomeOfNext(q: seq<Request>, i: nat, op: Operation)
    requires i <= |q|
    ensures i < |q| ==> (SomeOf(q[..i + 1], op) <==> SomeOf(q[..i], op) || q[i].op == op)
  {
    if i < |q| && SomeOf(q[..i], op) {
      var k :| 0 <= k < i && q[..i][k].op == op;
      assert q[..i + 1][k].op == op;
    }
    if i < |q| && q[i].op == op {
      assert q[..i + 1][i].op == op;
    }
  }
}
