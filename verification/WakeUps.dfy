/** Which wake-ups LEAVE and FREE lose. A scan of the wait queue ends with its first grant,
    because PriorityQueue::remove clears the link that the scan would follow (Bolt.cc,
    PriorityQueue.cc). */
module WakeUps {
  import opened Bolts

  /** No RESERVE waits for bolts it could have, and an ENTER does so only while a RESERVE waits. */
  ghost predicate NoLostWakeUp(w: World) {
    WritersWait(w) && ReadersWait(w)
  }

  ghost predicate WritersWait(w: World) {
    forall i :: 0 <= i < |w.waiters| && w.waiters[i].op.Reserve? ==> Blocked(w, Reserve, w.waiters[i].bolts)
  }

  ghost predicate ReadersWait(w: World) {
    forall i :: 0 <= i < |w.waiters| && Grantable(w, w.waiters[i], Enter) ==> SomeOf(w.waiters, Reserve)
  }

  predicate Shares(a: seq<BoltId>, b: seq<BoltId>) {
    exists i :: 0 <= i < |a| && a[i] in b
  }

  /** What a grant blocks besides what was blocked: everything that names one of its bolts,
      except an ENTER where an ENTER was granted. */
  lemma GrantBlocks(w: World, t: Task, op: Operation, bolts: seq<BoltId>, r: Request)
    requires !Blocked(w, op, bolts)
    ensures Blocked(Grant(w, t, op, bolts), r.op, r.bolts)
        <==> Blocked(w, r.op, r.bolts) || (Shares(r.bolts, bolts) && !(op.Enter? && r.op.Enter?))
  {
    var x := Grant(w, t, op, bolts);
    forall i | 0 <= i < |r.bolts|
      ensures BoltBlocks(x.State(r.bolts[i]), r.op)
          <==> BoltBlocks(w.State(r.bolts[i]), r.op) || (r.bolts[i] in bolts && !(op.Enter? && r.op.Enter?))
    {
      GrantState(w, t, op, bolts, r.bolts[i]);
      if r.bolts[i] in bolts {
        var k :| 0 <= k < |bolts| && bolts[k] == r.bolts[i];
        assert !BoltBlocks(w.State(bolts[k]), op);
      }
    }
    if Blocked(x, r.op, r.bolts) {
      var i :| 0 <= i < |r.bolts| && BoltBlocks(x.State(r.bolts[i]), r.op);
    }
    if Blocked(w, r.op, r.bolts) {
      var i :| 0 <= i < |r.bolts| && BoltBlocks(w.State(r.bolts[i]), r.op);
      assert BoltBlocks(x.State(r.bolts[i]), r.op);
    }
    if Shares(r.bolts, bolts) && !(op.Enter? && r.op.Enter?) {
      var i :| 0 <= i < |r.bolts| && r.bolts[i] in bolts;
      assert BoltBlocks(x.State(r.bolts[i]), r.op);
    }
  }

  /** An ENTER that could go on beside a request that takes the bolts `taken`. */
  predicate FreeEnter(w: World, r: Request, taken: seq<BoltId>) {
    Grantable(w, r, Enter) && !Shares(r.bolts, taken)
  }

  function FirstFree(w: World, q: seq<Request>, taken: seq<BoltId>): (j: nat)
    ensures j <= |q| && (j < |q| ==> FreeEnter(w, q[j], taken))
    ensures forall k :: 0 <= k < j ==> !FreeEnter(w, q[k], taken)
  {
    if q == [] || FreeEnter(w, q[0], taken) then 0 else 1 + FirstFree(w, q[1..], taken)
  }

  predicate AtMostOneEnter(w: World, q: seq<Request>, taken: seq<BoltId>) {
    forall k, l :: 0 <= k < l < |q| ==> !(FreeEnter(w, q[k], taken) && FreeEnter(w, q[l], taken))
  }

  /** A RESERVE cannot go on, or not beside the granted request with the bolts `taken`. */
  predicate HeldOff(w: World, r: Request, taken: seq<BoltId>) {
    r.op.Reserve? ==> Blocked(w, Reserve, r.bolts) || Shares(r.bolts, taken)
  }

  /** When the bolts are as in w, whether the two scans leave nobody behind: on the queue and
      the states of the bolts before the scans. Without a RESERVE to grant, one may wait, or at
      most one ENTER can go on. Otherwise the granted RESERVE holds off all others, with the help
      of the granted ENTER if no RESERVE stands before it, and then a RESERVE still waits or at
      most one ENTER can go on. */
  predicate KeepsWakeUps(w: World) {
    var q := w.waiters;
    var i := First(w, q, Reserve);
    if i == |q| then SomeOf(q, Reserve) || AtMostOneEnter(w, q, [])
    else
      var taken, rest := q[i].bolts, Drop(q, i);
      if SomeOf(q[..i], Reserve) then forall k :: 0 <= k < |rest| ==> HeldOff(w, rest[k], taken)
      else
        var j := FirstFree(w, rest, taken);
        var both := if j < |rest| then taken + rest[j].bolts else taken;
        && (forall k :: 0 <= k < |rest| ==> HeldOff(w, rest[k], both))
        && (SomeOf(rest, Reserve) || AtMostOneEnter(w, rest, taken))
  }

  lemma SharesBoth(r: seq<BoltId>, a: seq<BoltId>, b: seq<BoltId>)
    ensures Shares(r, a + b) <==> Shares(r, a) || Shares(r, b)
  {
    if Shares(r, a + b) {
      var i :| 0 <= i < |r| && r[i] in a + b;
      assert r[i] in a || r[i] in b;
    }
    if Shares(r, a) {
      var i :| 0 <= i < |r| && r[i] in a;
      assert r[i] in a + b;
    }
    if Shares(r, b) {
      var i :| 0 <= i < |r| && r[i] in b;
      assert r[i] in a + b;
    }
  }

  lemma DropParts(q: seq<Request>, i: nat, op: Operation)
    requires i < |q|
    ensures forall k :: 0 <= k < |q| - 1 ==> Drop(q, i)[k] == q[if k < i then k else k + 1]
    ensures q[i].op != op ==> (SomeOf(Drop(q, i), op) <==> SomeOf(q, op))
  {
    if q[i].op != op && SomeOf(q, op) {
      var k :| 0 <= k < |q| && q[k].op == op;
      assert Drop(q, i)[if k < i then k else k - 1] == q[k];
    }
  }

  /** The scan for ENTER requests, when x stands for w with the bolts `taken` reserved. */
  ghost predicate Reserved(w: World, x: World, taken: seq<BoltId>) {
    forall r: Request {:trigger Blocked(x, r.op, r.bolts)} ::
      Blocked(x, r.op, r.bolts) <==> Blocked(w, r.op, r.bolts) || Shares(r.bolts, taken)
  }

  lemma {:induction false} FirstIsFree(w: World, x: World, q: seq<Request>, taken: seq<BoltId>)
    requires Reserved(w, x, taken)
    ensures First(x, q, Enter) == FirstFree(w, q, taken)
    decreases |q|
  {
    if q != [] {
      assert Blocked(x, q[0].op, q[0].bolts) <==> Blocked(w, q[0].op, q[0].bolts) || Shares(q[0].bolts, taken);
      FirstIsFree(w, x, q[1..], taken);
    }
  }

  /** What the second scan leaves behind. */
  lemma EnterScan(w: World, x: World, taken: seq<BoltId>)
    requires Reserved(w, x, taken)
    ensures var q := x.waiters;
            var j := FirstFree(w, q, taken);
            var both := if j < |q| then taken + q[j].bolts else taken;
            NoLostWakeUp(Pass(x, Enter).0)
            <==> (forall k :: 0 <= k < |q| ==> HeldOff(w, q[k], both))
                 && (SomeOf(q, Reserve) || AtMostOneEnter(w, q, taken))
  {
    var q := x.waiters;
    var j := FirstFree(w, q, taken);
    FirstIsFree(w, x, q, taken);
    var y := Pass(x, Enter).0;
    forall r: Request ensures Blocked(y, r.op, r.bolts) <==> After(w, q, j, taken, r) {
      assert Blocked(x, r.op, r.bolts) <==> Blocked(w, r.op, r.bolts) || Shares(r.bolts, taken);
      if j < |q| {
        var g := Grant(x, q[j].task, Enter, q[j].bolts);
        GrantBlocks(x, q[j].task, Enter, q[j].bolts, r);
        BlockedDespiteQueue(g, Drop(q, j), r.op, r.bolts);
      }
    }
    if j < |q| {
      DropParts(q, j, Reserve);
      LeftBehind(w, y, q, j, taken);
    } else {
      NobodyLeft(w, y, q, taken);
    }
  }

  /** Whether r is blocked after the second scan. */
  predicate After(w: World, q: seq<Request>, j: nat, taken: seq<BoltId>, r: Request) {
    || Blocked(w, r.op, r.bolts) || Shares(r.bolts, taken)
    || (j < |q| && r.op.Reserve? && Shares(r.bolts, q[j].bolts))
  }

  lemma NobodyLeft(w: World, y: World, q: seq<Request>, taken: seq<BoltId>)
    requires y.waiters == q && FirstFree(w, q, taken) == |q|
    requires forall r: Request :: Blocked(y, r.op, r.bolts) <==> After(w, q, |q|, taken, r)
    ensures NoLostWakeUp(y) <==> forall k :: 0 <= k < |q| ==> HeldOff(w, q[k], taken)
    ensures AtMostOneEnter(w, q, taken)
  {
    forall k | 0 <= k < |q| ensures !Grantable(y, q[k], Enter) {
      assert !FreeEnter(w, q[k], taken);
    }
    forall k | 0 <= k < |q|
      ensures HeldOff(w, q[k], taken) <==> (q[k].op.Reserve? ==> Blocked(y, Reserve, q[k].bolts))
    {
      assert Blocked(y, q[k].op, q[k].bolts) <==> After(w, q, |q|, taken, q[k]);
    }
  }

  /** One queued request after the second scan. */
  lemma AfterScan(w: World, y: World, q: seq<Request>, j: nat, taken: seq<BoltId>, k: nat)
    requires j < |q| && k < |q| && FirstFree(w, q, taken) == j
    requires Blocked(y, q[k].op, q[k].bolts) <==> After(w, q, j, taken, q[k])
    ensures HeldOff(w, q[k], taken + q[j].bolts) <==> (q[k].op.Reserve? ==> Blocked(y, Reserve, q[k].bolts))
    ensures Grantable(y, q[k], Enter) <==> FreeEnter(w, q[k], taken)
  {
    SharesBoth(q[k].bolts, taken, q[j].bolts);
  }

  lemma LeftBehind(w: World, y: World, q: seq<Request>, j: nat, taken: seq<BoltId>)
    requires j < |q| && y.waiters == Drop(q, j) && FirstFree(w, q, taken) == j
    requires SomeOf(y.waiters, Reserve) <==> SomeOf(q, Reserve)
    requires forall r: Request :: Blocked(y, r.op, r.bolts) <==> After(w, q, j, taken, r)
    ensures NoLostWakeUp(y)
        <==> (forall k :: 0 <= k < |q| ==> HeldOff(w, q[k], taken + q[j].bolts))
             && (SomeOf(q, Reserve) || AtMostOneEnter(w, q, taken))
  {
    forall k | 0 <= k < |q|
      ensures HeldOff(w, q[k], taken + q[j].bolts) <==> (q[k].op.Reserve? ==> Blocked(y, Reserve, q[k].bolts))
      ensures Grantable(y, q[k], Enter) <==> FreeEnter(w, q[k], taken)
    {
      assert Blocked(y, q[k].op, q[k].bolts) <==> After(w, q, j, taken, q[k]);
      AfterScan(w, y, q, j, taken, k);
    }
    WritersLeft(w, y, q, j, taken + q[j].bolts);
    ReadersLeft(w, y, q, j, taken);
  }

  /** The RESERVE requests in the queue without the granted ENTER at place j. */
  lemma WritersLeft(w: World, y: World, q: seq<Request>, j: nat, both: seq<BoltId>)
    requires j < |q| && y.waiters == Drop(q, j) && q[j].op.Enter?
    requires forall k :: 0 <= k < |q| ==>
        (HeldOff(w, q[k], both) <==> (q[k].op.Reserve? ==> Blocked(y, Reserve, q[k].bolts)))
    ensures WritersWait(y) <==> forall k :: 0 <= k < |q| ==> HeldOff(w, q[k], both)
  {
    var p := y.waiters;
    DropParts(q, j, Reserve);
    if WritersWait(y) {
      forall k | 0 <= k < |q| ensures HeldOff(w, q[k], both) {
        assert k != j ==> q[k] == p[if k < j then k else k - 1];
      }
    }
  }

  /** The ENTER requests in the queue without the one at place j, the first that could go on. */
  lemma ReadersLeft(w: World, y: World, q: seq<Request>, j: nat, taken: seq<BoltId>)
    requires j < |q| && y.waiters == Drop(q, j) && FirstFree(w, q, taken) == j
    requires SomeOf(y.waiters, Reserve) <==> SomeOf(q, Reserve)
    requires forall k :: 0 <= k < |q| ==> (Grantable(y, q[k], Enter) <==> FreeEnter(w, q[k], taken))
    ensures ReadersWait(y) <==> SomeOf(q, Reserve) || AtMostOneEnter(w, q, taken)
  {
    var p := y.waiters;
    DropParts(q, j, Reserve);
    if ReadersWait(y) && !SomeOf(q, Reserve) {
      forall k | 0 <= k < |q| && k != j ensures !FreeEnter(w, q[k], taken) {
        assert q[k] == p[if k < j then k else k - 1];
      }
    }
    if AtMostOneEnter(w, q, taken) {
      forall i | 0 <= i < |p| ensures !Grantable(y, p[i], Enter) {
        var k := if i < j then i else i + 1;
        assert p[i] == q[k] && FreeEnter(w, q[j], taken);
      }
    }
  }

  /** What the first scan blocks when it grants the request at place i. */
  lemma ReserveScan(w: World, i: nat)
    requires i == First(w, w.waiters, Reserve) < |w.waiters|
    ensures var x := Pass(w, Reserve).0;
            x.waiters == Drop(w.waiters, i) && Reserved(w, x, w.waiters[i].bolts)
  {
    var r := w.waiters[i];
    var g, x := Grant(w, r.task, Reserve, r.bolts), Pass(w, Reserve).0;
    forall s: Request
      ensures Blocked(x, s.op, s.bolts) <==> Blocked(w, s.op, s.bolts) || Shares(s.bolts, r.bolts)
    {
      GrantBlocks(w, r.task, Reserve, r.bolts, s);
      BlockedDespiteQueue(g, Drop(w.waiters, i), s.op, s.bolts);
    }
  }

  /** When a RESERVE waits, the queue may hold any ENTER. */
  lemma WriterWaits(w: World, x: World, taken: seq<BoltId>)
    requires Reserved(w, x, taken) && SomeOf(x.waiters, Reserve)
    ensures NoLostWakeUp(x) <==> forall k :: 0 <= k < |x.waiters| ==> HeldOff(w, x.waiters[k], taken)
  {
    var q := x.waiters;
    forall k | 0 <= k < |q|
      ensures HeldOff(w, q[k], taken) <==> (q[k].op.Reserve? ==> Blocked(x, Reserve, q[k].bolts))
    {
      assert Blocked(x, q[k].op, q[k].bolts) <==> Blocked(w, q[k].op, q[k].bolts) || Shares(q[k].bolts, taken);
    }
  }

  /** A LEAVE or FREE loses no wake-up exactly under that condition, whatever went before. */
  lemma WakeUpsExact(w: World)
    ensures NoLostWakeUp(Wake(w)) <==> KeepsWakeUps(w)
  {
    var q := w.waiters;
    var i := First(w, q, Reserve);
    if i == |q| {
      NoReserveGranted(w);
    } else {
      var x := Pass(w, Reserve).0;
      ReserveScan(w, i);
      if SomeOf(q[..i], Reserve) {
        var k :| 0 <= k < i && q[..i][k].op == Reserve;
        DropParts(q, i, Enter);
        assert x.waiters[k].op == Reserve;
        WriterWaits(w, x, q[i].bolts);
      } else {
        EnterScan(w, x, q[i].bolts);
      }
    }
  }

  lemma NoReserveGranted(w: World)
    requires First(w, w.waiters, Reserve) == |w.waiters|
    ensures NoLostWakeUp(Wake(w)) <==> SomeOf(w.waiters, Reserve) || AtMostOneEnter(w, w.waiters, [])
  {
    var q := w.waiters;
    assert q[..|q|] == q;
    assert forall k :: 0 <= k < |q| ==> !Grantable(w, q[k], Reserve);
    if !SomeOf(q, Reserve) {
      EnterScan(w, w, []);
    }
  }

  // ---------------------------------------------------------------- writers first

  function HowMany(q: seq<Request>, op: Operation): nat {
    if q == [] then 0 else (if q[0].op == op then 1 else 0) + HowMany(q[1..], op)
  }

  lemma {:induction false} HowManyDrop(q: seq<Request>, i: nat, op: Operation)
    requires i < |q|
    ensures HowMany(Drop(q, i), op) == HowMany(q, op) - (if q[i].op == op then 1 else 0)
  {
    if i > 0 {
      HowManyDrop(q[1..], i - 1, op);
      assert Drop(q, i)[1..] == Drop(q[1..], i - 1);
    } else {
      assert Drop(q, 0) == q[1..];
    }
  }

  /** An ENTER goes on while a RESERVE waits exactly when a RESERVE is granted with none before
      it and another behind it, and an ENTER can go on beside it. */
  lemma ReadersPassExact(w: World)
    ensures HowMany(Wake(w).waiters, Enter) < HowMany(w.waiters, Enter) && SomeOf(Wake(w).waiters, Reserve)
        <==> var q := w.waiters;
             var i := First(w, q, Reserve);
             && i < |q| && !SomeOf(q[..i], Reserve) && SomeOf(Drop(q, i), Reserve)
             && FirstFree(w, Drop(q, i), q[i].bolts) < |q| - 1
  {
    var q := w.waiters;
    var i := First(w, q, Reserve);
    var x := Pass(w, Reserve).0;
    if i < |q| {
      ReserveScan(w, i);
      FirstIsFree(w, x, Drop(q, i), q[i].bolts);
      HowManyDrop(q, i, Enter);
    } else {
      assert q[..i] == q;
    }
    var j := First(x, x.waiters, Enter);
    if j < |x.waiters| {
      HowManyDrop(x.waiters, j, Enter);
      DropParts(x.waiters, j, Reserve);
    }
  }

  // ---------------------------------------------------------------- runs

  lemma InsertParts(q: seq<Request>, r: Request)
    ensures var k, p := Place(q, r.prio), Insert(q, r);
            && |p| == |q| + 1
            && forall i :: 0 <= i < |p| ==> p[i] == if i < k then q[i] else if i == k then r else q[i - 1]
    ensures SomeOf(q, Reserve) ==> SomeOf(Insert(q, r), Reserve)
  {
    var k, p := Place(q, r.prio), Insert(q, r);
    if SomeOf(q, Reserve) {
      var i :| 0 <= i < |q| && q[i].op == Reserve;
      assert p[if i < k then i else i + 1] == q[i];
    }
  }

  lemma InsertKeeps(w: World, r: Request)
    requires NoLostWakeUp(w) && Blocked(w, r.op, r.bolts)
    ensures NoLostWakeUp(w.(waiters := Insert(w.waiters, r)))
  {
    var q := w.waiters;
    var p, k := Insert(q, r), Place(q, r.prio);
    var x := w.(waiters := p);
    InsertParts(q, r);
    forall i | 0 <= i < |p|
      ensures p[i].op.Reserve? ==> Blocked(x, Reserve, p[i].bolts)
      ensures Grantable(x, p[i], Enter) ==> SomeOf(p, Reserve)
    {
      BlockedDespiteQueue(w, p, p[i].op, p[i].bolts);
      if i != k {
        assert p[i] == q[if i < k then i else i - 1];
      }
    }
  }

  /** ENTER and RESERVE lose no wake-up. */
  lemma AskKeepsWakeUps(w: World, r: Request)
    requires NoLostWakeUp(w)
    ensures NoLostWakeUp(Step(w, Ask(r)))
  {
    var q, x := w.waiters, Step(w, Ask(r));
    if Blocked(w, r.op, r.bolts) {
      InsertKeeps(w, r);
    } else if !(r.op.Reserve? && !NoDuplicates(r.bolts)) {
      GrantExact(w, r.task, r.op, r.bolts, 0);
      forall i | 0 <= i < |q| && Blocked(w, q[i].op, q[i].bolts) ensures Blocked(x, q[i].op, q[i].bolts) {
        GrantBlocks(w, r.task, r.op, r.bolts, q[i]);
      }
    }
  }

  /** The condition for the bolts that a LEAVE or FREE gives back. */
  ghost predicate Keeps(w: World, a: Action) {
    a.GiveBack? ==> KeepsWakeUps(Release(w, a.task, a.op, a.bolts).0)
  }

  ghost predicate KeepingRun(w: World, actions: seq<Action>)
    decreases |actions|
  {
    actions != [] ==>
      Allowed(w, actions[0]) && Keeps(w, actions[0]) && KeepingRun(Step(w, actions[0]), actions[1..])
  }

  /** A LEAVE or FREE of held bolts loses no wake-up if and only if the condition holds. */
  lemma GiveBackExact(w: World, t: Task, op: Operation, bolts: seq<BoltId>)
    requires Consistent(w) && Holds(w, t, op, bolts)
    ensures NoLostWakeUp(Step(w, GiveBack(t, op, bolts))) <==> Keeps(w, GiveBack(t, op, bolts))
  {
    ReleaseConsistent(w, t, op, bolts);
    WakeUpsExact(Release(w, t, op, bolts).0);
  }

  /** Over every run in which each LEAVE and FREE meets the condition no wake-up is lost. */
  lemma {:induction false} RunKeepsWakeUps(w: World, actions: seq<Action>)
    requires Invariant(w) && NoLostWakeUp(w) && KeepingRun(w, actions)
    ensures NoLostWakeUp(Run(w, actions))
    decreases |actions|
  {
    if actions != [] {
      var a := actions[0];
      StepInvariant(w, a);
      if a.Ask? {
        AskKeepsWakeUps(w, a.request);
      } else {
        GiveBackExact(w, a.task, a.op, a.bolts);
      }
      RunKeepsWakeUps(Step(w, a), actions[1..]);
    }
  }

  // ---------------------------------------------------------------- what is lost

  /** A task takes all its bolts and two others have to wait for them. */
  lemma TwoWait(r: Request, x: Request, y: Request)
    requires r.op.Reserve? && NoDuplicates(r.bolts) && x.prio <= y.prio
    requires x.bolts != [] && x.bolts[0] in r.bolts && (x.op.Reserve? ==> NoDuplicates(x.bolts))
    requires y.bolts != [] && y.bolts[0] in r.bolts && (y.op.Reserve? ==> NoDuplicates(y.bolts))
    ensures AllowedRun(INITIAL, [Ask(r), Ask(x), Ask(y)])
    ensures Run(INITIAL, [Ask(r), Ask(x), Ask(y)]) == Grant(INITIAL, r.task, Reserve, r.bolts).(waiters := [x, y])
  {
    var g := Grant(INITIAL, r.task, Reserve, r.bolts);
    assert !Blocked(INITIAL, r.op, r.bolts);
    GrantExact(INITIAL, r.task, Reserve, r.bolts, 0);
    assert Step(INITIAL, Ask(r)) == g == g.(waiters := []);
    GrantBlocks(INITIAL, r.task, Reserve, r.bolts, x);
    GrantBlocks(INITIAL, r.task, Reserve, r.bolts, y);
    HasToWait(g, [], x);
    HasToWait(g, [x], y);
    assert Insert([], x) == [x] && Insert([x], y) == [x, y];
    RunThree(INITIAL, Ask(r), Ask(x), Ask(y));
  }

  lemma HasToWait(g: World, q: seq<Request>, x: Request)
    requires Blocked(g, x.op, x.bolts) && (x.op.Reserve? ==> NoDuplicates(x.bolts))
    ensures Step(g.(waiters := q), Ask(x)) == g.(waiters := Insert(q, x))
  {
    BlockedDespiteQueue(g, q, x.op, x.bolts);
  }

  lemma RunThree(w: World, a: Action, b: Action, c: Action)
    ensures Run(w, [a, b, c]) == Step(Step(Step(w, a), b), c)
    ensures a.Ask? && b.Ask? && c.Ask? ==> AllowedRun(w, [a, b, c])
  {
    assert [a, b, c][1..] == [b, c] && [b, c][1..] == [c] && [c][1..] == [];
    var x := Step(w, a);
    var y := Step(x, b);
    assert Run(y, [c]) == Run(Step(y, c), []) && Run(x, [b, c]) == Run(y, [c]);
    assert c.Ask? ==> AllowedRun(y, [c]);
    assert b.Ask? && c.Ask? ==> AllowedRun(x, [b, c]);
  }

  /** Of two waiting tasks of one kind that could both go on the wake-up lets the first go on. */
  lemma FirstOfTwo(w: World, x: Request, y: Request)
    requires w.waiters == [x, y] && x.op == y.op && !Blocked(w, x.op, x.bolts)
    ensures Wake(w) == Grant(w, x.task, x.op, x.bolts).(waiters := [y])
  {
    assert [x, y][..0] == [] && Drop([x, y], 0) == [y];
    var g := Grant(w, x.task, x.op, x.bolts).(waiters := [y]);
    if x.op.Reserve? {
      assert Pass(w, Reserve) == (g, false);
      assert First(g, [y], Enter) == 1;
    } else {
      assert First(w, [x, y], Reserve) == 2;
      assert Pass(w, Reserve) == (w, false);
      assert Pass(w, Enter).0 == g;
    }
  }

  /** Both could go on together, so the second is forgotten. */
  lemma SecondForgotten(w: World, x: Request, y: Request)
    requires w.waiters == [x, y] && x.op == y.op && !Blocked(w, x.op, x.bolts) && !Blocked(w, y.op, y.bolts)
    requires x.op.Reserve? ==> !Shares(y.bolts, x.bolts)
    ensures Wake(w).waiters == [y] && !NoLostWakeUp(Wake(w))
  {
    FirstOfTwo(w, x, y);
    var g := Grant(w, x.task, x.op, x.bolts);
    GrantBlocks(w, x.task, x.op, x.bolts, y);
    BlockedDespiteQueue(g, [y], y.op, y.bolts);
    assert Wake(w).waiters[0] == y;
  }

  /** Two readers wait for a reserved bolt: the FREE lets only the first one in. */
  lemma SecondReaderLost(t: Task, u: Task, v: Task, b: BoltId, prio: int)
    ensures var x, y := Request(u, prio, Enter, [b]), Request(v, prio, Enter, [b]);
            var w := Run(INITIAL, [Ask(Request(t, prio, Reserve, [b])), Ask(x), Ask(y)]);
            && Allowed(w, GiveBack(t, Reserve, [b]))
            && Step(w, GiveBack(t, Reserve, [b])).waiters == [y]
            && !NoLostWakeUp(Step(w, GiveBack(t, Reserve, [b])))
  {
    var r, x, y := Request(t, prio, Reserve, [b]), Request(u, prio, Enter, [b]), Request(v, prio, Enter, [b]);
    TwoWait(r, x, y);
    var w := Run(INITIAL, [Ask(r), Ask(x), Ask(y)]);
    GivesAllBack(w, t, [b], x, y);
    SecondForgotten(Release(w, t, Reserve, [b]).0, x, y);
  }

  /** Two writers wait for two bolts that one task holds: its FREE lets only the first one
      in, and the other waits although its bolt is free. */
  lemma SecondWriterLost(t: Task, u: Task, v: Task, a: BoltId, b: BoltId, prio: int)
    requires a != b
    ensures var x, y := Request(u, prio, Reserve, [a]), Request(v, prio, Reserve, [b]);
            var w := Run(INITIAL, [Ask(Request(t, prio, Reserve, [a, b])), Ask(x), Ask(y)]);
            && Allowed(w, GiveBack(t, Reserve, [a, b]))
            && Step(w, GiveBack(t, Reserve, [a, b])).waiters == [y]
            && !NoLostWakeUp(Step(w, GiveBack(t, Reserve, [a, b])))
  {
    var r, x, y := Request(t, prio, Reserve, [a, b]), Request(u, prio, Reserve, [a]), Request(v, prio, Reserve, [b]);
    TwoWait(r, x, y);
    var w := Run(INITIAL, [Ask(r), Ask(x), Ask(y)]);
    GivesAllBack(w, t, [a, b], x, y);
    SecondForgotten(Release(w, t, Reserve, [a, b]).0, x, y);
  }

  /** The task that holds exactly the bolts of its RESERVE gives them back: all bolts are free. */
  lemma GivesAllBack(w: World, t: Task, bolts: seq<BoltId>, x: Request, y: Request)
    requires NoDuplicates(bolts) && w == Grant(INITIAL, t, Reserve, bolts).(waiters := [x, y])
    ensures Holds(w, t, Reserve, bolts)
    ensures var (z, ok) := Release(w, t, Reserve, bolts); ok && z.waiters == [x, y] && forall b: BoltId :: z.State(b) == Free
  {
    InitialInvariant();
    assert !Blocked(INITIAL, Reserve, bolts);
    GrantConsistent(INITIAL, t, Reserve, bolts);
    ConsistentDespiteQueue(Grant(INITIAL, t, Reserve, bolts), [x, y]);
    forall b: BoltId
      ensures HeldBy(w, Reserve, b, t) == Mentions(bolts, b) && w.Holding(b).entered == []
      ensures |w.Holding(b).reserved| == Mentions(bolts, b)
    {
      GrantExact(INITIAL, t, Reserve, bolts, b);
      CountTimes(t, Mentions(bolts, b));
      assert w.Holding(b) == Grant(INITIAL, t, Reserve, bolts).Holding(b);
      assert [] + Times(t, Mentions(bolts, b)) == Times(t, Mentions(bolts, b));
    }
    ReleaseConsistent(w, t, Reserve, bolts);
    var z := Release(w, t, Reserve, bolts).0;
    forall b: BoltId ensures z.State(b) == Free {
      NothingLeft(w, z, t, bolts, b);
    }
  }

  lemma {:induction false} CountTimes(t: Task, n: nat)
    ensures Count(Times(t, n), t) == n == |Times(t, n)|
  {
    if n > 0 {
      CountTimes(t, n - 1);
      CountSnoc(Times(t, n - 1), t);
    }
  }

  lemma {:induction false} CountSnoc(s: seq<Task>, t: Task)
    ensures Count(s + [t], t) == Count(s, t) + 1
  {
    if s == [] {
      assert [] + [t] == [t];
    } else {
      assert (s + [t])[1..] == s[1..] + [t];
      CountSnoc(s[1..], t);
    }
  }

  lemma NothingLeft(w: World, z: World, t: Task, bolts: seq<BoltId>, b: BoltId)
    requires Consistent(z)
    requires forall o: Operation, c: BoltId, u: Task ::
        HeldBy(z, o, c, u) == HeldBy(w, o, c, u) - (if o.Reserve? && u == t then Mentions(bolts, c) else 0)
    requires HeldBy(w, Reserve, b, t) == Mentions(bolts, b) && w.Holding(b).entered == []
    requires |w.Holding(b).reserved| == Mentions(bolts, b)
    ensures z.State(b) == Free
  {
    var h := z.Holding(b);
    assert BoltConsistent(z.State(b), z.Enters(b), h);
    forall u: Task ensures Count(h.entered, u) == 0 && Count(h.reserved, u) == 0 {
      assert HeldBy(z, Enter, b, u) == HeldBy(w, Enter, b, u);
      assert HeldBy(z, Reserve, b, u) == HeldBy(w, Reserve, b, u) - (if u == t then Mentions(bolts, b) else 0);
      CountWithin(w.Holding(b).reserved, t, u);
    }
    CountFirst(h.entered);
    CountFirst(h.reserved);
  }

  lemma CountFirst(s: seq<Task>)
    ensures s == [] || Count(s, s[0]) > 0
  {
  }

  /** Occurrences of two different tasks. */
  lemma {:induction false} CountWithin(s: seq<Task>, t: Task, u: Task)
    ensures t != u ==> Count(s, t) + Count(s, u) <= |s|
  {
    if s != [] {
      CountWithin(s[1..], t, u);
    }
  }
}
