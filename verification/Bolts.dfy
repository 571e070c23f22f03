/** Bolts: readers and writers over several locks at once (Bolt.cc). Every operation runs
    under one mutex, so each is one step of the world described here. */
module Bolts {

  type BoltId = int
  type Task = int

  datatype BoltState = Free | Entered | Reserved

  datatype Operation = Enter | Reserve

  /** A blocked task with its priority, smaller numbers first, and what it asked for. */
  datatype Request = Request(task: Task, prio: int, op: Operation, bolts: seq<BoltId>)

  /** Which tasks have entered or reserved a bolt and not yet given it back; the code does
      not record this. */
  datatype Holders = Holders(entered: seq<Task>, reserved: seq<Task>)

  /** The bolts with their counters, and the wait queue. */
  datatype World = World(
    state: map<BoltId, BoltState>,
    enters: map<BoltId, nat>,
    holders: map<BoltId, Holders>,
    waiters: seq<Request>)
  {
    function State(b: BoltId): BoltState { if b in state then state[b] else Free }

    function Enters(b: BoltId): nat { if b in enters then enters[b] else 0 }

    function Holding(b: BoltId): Holders {
      if b in holders then holders[b] else Holders([], [])
    }
  }

  /** One occurrence of a task is taken out. */
  function Without(s: seq<Task>, t: Task): (r: seq<Task>)
    ensures |r| == if t in s then |s| - 1 else |s|
  {
    if s == [] then [] else if s[0] == t then s[1..] else [s[0]] + Without(s[1..], t)
  }

  predicate NoDuplicates(bolts: seq<BoltId>) {
    forall i, j :: 0 <= i < j < |bolts| ==> bolts[i] != bolts[j]
  }

  predicate BoltBlocks(s: BoltState, op: Operation) {
    s.Reserved? || (s.Entered? && op.Reserve?)
  }

  /** What check answers: some bolt of the request is not to be had. */
  predicate Blocked(w: World, op: Operation, bolts: seq<BoltId>) {
    exists i :: 0 <= i < |bolts| && BoltBlocks(w.State(bolts[i]), op)
  }

  function GrantOne(w: World, t: Task, op: Operation, b: BoltId): World {
    var h := w.Holding(b);
    if op.Enter? then
      w.(state := w.state[b := Entered], enters := w.enters[b := w.Enters(b) + 1],
         holders := w.holders[b := h.(entered := h.entered + [t])])
    else
      w.(state := w.state[b := Reserved], holders := w.holders[b := h.(reserved := h.reserved + [t])])
  }

  /** The bolts of a request are taken one by one. */
  function Grant(w: World, t: Task, op: Operation, bolts: seq<BoltId>): World {
    if bolts == [] then w else GrantOne(Grant(w, t, op, bolts[..|bolts| - 1]), t, op, bolts[|bolts| - 1])
  }

  const UINT32_MAX := 0xffff_ffff

  /** decrementEnter on the unsigned counter. */
  function Decrement(n: nat): nat { if n == 0 then UINT32_MAX else n - 1 }

  /** One bolt is given back; the last ENTER frees it. */
  function ReleaseOne(w: World, t: Task, op: Operation, b: BoltId): World {
    var h := w.Holding(b);
    if op.Enter? then
      w.(state := w.state[b := if Decrement(w.Enters(b)) == 0 then Free else Entered],
         enters := w.enters[b := Decrement(w.Enters(b))],
         holders := w.holders[b := h.(entered := Without(h.entered, t))])
    else
      w.(state := w.state[b := Free], holders := w.holders[b := h.(reserved := Without(h.reserved, t))])
  }

  function Expected(op: Operation): BoltState { if op.Enter? then Entered else Reserved }

  /** The bolts are given back one by one, up to the first in a wrong state; the flag tells
      whether there was none. */
  function Release(w: World, t: Task, op: Operation, bolts: seq<BoltId>): (World, bool) {
    if bolts == [] then (w, true)
    else
      var (x, ok) := Release(w, t, op, bolts[..|bolts| - 1]);
      var b := bolts[|bolts| - 1];
      if !ok || x.State(b) != Expected(op) then (x, false) else (ReleaseOne(x, t, op, b), true)
  }

  predicate Grantable(w: World, r: Request, op: Operation) {
    r.op == op && !Blocked(w, r.op, r.bolts)
  }

  /** The place of the first request of one kind that could go on; the length if there is none. */
  function First(w: World, q: seq<Request>, op: Operation): (i: nat)
    ensures i <= |q| && (i < |q| ==> Grantable(w, q[i], op))
    ensures forall k :: 0 <= k < i ==> !Grantable(w, q[k], op)
  {
    if q == [] || Grantable(w, q[0], op) then 0 else 1 + First(w, q[1..], op)
  }

  predicate SomeOf(q: seq<Request>, op: Operation) {
    exists i :: 0 <= i < |q| && q[i].op == op
  }

  function Drop(q: seq<Request>, i: nat): seq<Request>
    requires i < |q|
  {
    q[..i] + q[i + 1..]
  }

  /** One scan of the wait queue for requests of one kind. Removing a task clears its link to
      the next one, so the scan ends with its first grant; the flag tells whether it met a
      request of its kind before that. */
  function Pass(w: World, op: Operation): (World, bool) {
    var q := w.waiters;
    var i := First(w, q, op);
    (if i == |q| then w else Grant(w, q[i].task, op, q[i].bolts).(waiters := Drop(q, i)), SomeOf(q[..i], op))
  }

  /** RESERVE requests first; ENTER requests only when the first scan met no blocked RESERVE. */
  function Wake(w: World): World {
    var (x, reserveIsWaiting) := Pass(w, Reserve);
    if reserveIsWaiting then x else Pass(x, Enter).0
  }

  datatype Action =
    | Ask(request: Request)                                    // ENTER or RESERVE
    | GiveBack(task: Task, op: Operation, bolts: seq<BoltId>)  // LEAVE or FREE

  /** The place behind all requests of the same or a more urgent priority. */
  function Place(q: seq<Request>, prio: int): (k: nat)
    ensures k <= |q| && (k < |q| ==> q[k].prio > prio) && forall i :: 0 <= i < k ==> q[i].prio <= prio
  {
    if q == [] || q[0].prio > prio then 0 else 1 + Place(q[1..], prio)
  }

  function Insert(q: seq<Request>, r: Request): seq<Request> {
    var k := Place(q, r.prio);
    q[..k] + [r] + q[k..]
  }

  function Step(w: World, a: Action): World {
    match a
    case Ask(r) =>
      if r.op.Reserve? && !NoDuplicates(r.bolts) then w
      else if Blocked(w, r.op, r.bolts) then w.(waiters := Insert(w.waiters, r))
      else Grant(w, r.task, r.op, r.bolts)
    case GiveBack(t, op, bolts) =>
      var (x, ok) := Release(w, t, op, bolts);
      if ok then Wake(x) else x
  }

  // ---------------------------------------------------------------- invariants

  /** The state and the counter of a bolt tell who holds it. */
  ghost predicate BoltConsistent(s: BoltState, n: nat, h: Holders) {
    && n == |h.entered|
    && |h.reserved| <= 1 && (|h.reserved| == 1 ==> |h.entered| == 0)
    && (s.Reserved? <==> |h.reserved| == 1)
    && (s.Entered? <==> |h.entered| > 0)
  }

  ghost predicate Consistent(w: World) {
    forall b: BoltId {:trigger w.Holding(b)} :: BoltConsistent(w.State(b), w.Enters(b), w.Holding(b))
  }

  /** No bolt got any freer. */
  ghost predicate NoFreer(w: World, x: World) {
    forall b: BoltId {:trigger x.State(b)} ::
      (w.State(b).Reserved? ==> x.State(b).Reserved?) && (w.State(b).Entered? ==> !x.State(b).Free?)
  }

  /** Grants only ever block more requests. */
  lemma BlockedStays(w: World, x: World, op: Operation, bolts: seq<BoltId>)
    requires NoFreer(w, x) && Blocked(w, op, bolts)
    ensures Blocked(x, op, bolts)
  {
    var i :| 0 <= i < |bolts| && BoltBlocks(w.State(bolts[i]), op);
    assert BoltBlocks(x.State(bolts[i]), op);
  }

  /** A task n times. */
  function Times(t: Task, n: nat): seq<Task> {
    if n == 0 then [] else Times(t, n - 1) + [t]
  }

  /** How often a request names a bolt. */
  function Mentions(bolts: seq<BoltId>, b: BoltId): nat {
    if bolts == [] then 0
    else Mentions(bolts[..|bolts| - 1], b) + (if bolts[|bolts| - 1] == b then 1 else 0)
  }

  /** A granted request gets every bolt it names, as often as it names it, and nobody
      else's holding changes. */
  lemma {:induction false} GrantExact(w: World, t: Task, op: Operation, bolts: seq<BoltId>, b: BoltId)
    ensures Grant(w, t, op, bolts).waiters == w.waiters
    ensures var h, k, n := w.Holding(b), Grant(w, t, op, bolts).Holding(b), Mentions(bolts, b);
            && k.entered == h.entered + Times(t, if op.Enter? then n else 0)
            && k.reserved == h.reserved + Times(t, if op.Reserve? then n else 0)
  {
    if bolts != [] {
      var front, last := bolts[..|bolts| - 1], bolts[|bolts| - 1];
      GrantExact(w, t, op, front, b);
      var g, n := Grant(w, t, op, front), Mentions(front, b);
      GrantOneExact(g, t, op, last, b);
      assert Grant(w, t, op, bolts) == GrantOne(g, t, op, last);
      assert Mentions(bolts, b) == if last == b then n + 1 else n;
      assert Times(t, n + 1) == Times(t, n) + [t];
    }
  }

  lemma GrantOneExact(w: World, t: Task, op: Operation, c: BoltId, b: BoltId)
    ensures GrantOne(w, t, op, c).waiters == w.waiters
    ensures var h, k := w.Holding(b), GrantOne(w, t, op, c).Holding(b);
            && k.entered == h.entered + (if op.Enter? && c == b then [t] else [])
            && k.reserved == h.reserved + (if op.Reserve? && c == b then [t] else [])
  {
  }

  /** Taking one bolt that does not block keeps its books. */
  lemma TakeBolt(s: BoltState, n: nat, h: Holders, t: Task, op: Operation)
    requires BoltConsistent(s, n, h) && !BoltBlocks(s, op)
    ensures op.Enter? ==> BoltConsistent(Entered, n + 1, h.(entered := h.entered + [t]))
    ensures op.Reserve? ==> BoltConsistent(Reserved, n, h.(reserved := h.reserved + [t]))
  {
  }

  lemma GrantOneConsistent(w: World, t: Task, op: Operation, b: BoltId)
    requires Consistent(w) && !BoltBlocks(w.State(b), op)
    ensures Consistent(GrantOne(w, t, op, b)) && NoFreer(w, GrantOne(w, t, op, b))
  {
    var x := GrantOne(w, t, op, b);
    TakeBolt(w.State(b), w.Enters(b), w.Holding(b), t, op);
    forall c: BoltId ensures BoltConsistent(x.State(c), x.Enters(c), x.Holding(c)) {
      if c != b {
        assert x.Holding(c) == w.Holding(c) && x.Enters(c) == w.Enters(c) && x.State(c) == w.State(c);
      }
    }
  }

  function Taken(w: World, op: Operation, bolts: seq<BoltId>, b: BoltId): BoltState {
    if b !in bolts then w.State(b) else if op.Enter? then Entered else Reserved
  }

  /** A request that is not blocked can be granted bolt by bolt: an ENTER may name a bolt
      more than once, a RESERVE may not. */
  lemma {:induction false} GrantConsistent(w: World, t: Task, op: Operation, bolts: seq<BoltId>)
    requires Consistent(w) && !Blocked(w, op, bolts) && (op.Reserve? ==> NoDuplicates(bolts))
    ensures Consistent(Grant(w, t, op, bolts)) && NoFreer(w, Grant(w, t, op, bolts))
    ensures forall b: BoltId :: Grant(w, t, op, bolts).State(b) == Taken(w, op, bolts, b)
  {
    if bolts != [] {
      var front, last := bolts[..|bolts| - 1], bolts[|bolts| - 1];
      assert bolts == front + [last];
      GrantConsistent(w, t, op, front);
      assert !BoltBlocks(w.State(last), op);
      var g := Grant(w, t, op, front);
      GrantOneConsistent(g, t, op, last);
      forall b: BoltId ensures GrantOne(g, t, op, last).State(b) == Taken(w, op, bolts, b) {
        assert g.State(b) == Taken(w, op, front, b);
        assert b in bolts <==> b in front || b == last;
      }
    }
  }

  function Count(s: seq<Task>, t: Task): nat {
    if s == [] then 0 else (if s[0] == t then 1 else 0) + Count(s[1..], t)
  }

  function Held(h: Holders, op: Operation): seq<Task> {
    if op.Enter? then h.entered else h.reserved
  }

  /** How often a task holds a bolt. */
  function HeldBy(w: World, op: Operation, b: BoltId, t: Task): nat {
    Count(Held(w.Holding(b), op), t)
  }

  /** A task holds every bolt at least as often as it names it. */
  ghost predicate Holds(w: World, t: Task, op: Operation, bolts: seq<BoltId>) {
    forall b: BoltId :: Mentions(bolts, b) <= HeldBy(w, op, b, t)
  }

  lemma {:induction false} WithoutCount(s: seq<Task>, t: Task, u: Task)
    ensures Count(s, t) > 0 <==> t in s
    ensures t in s ==> Count(Without(s, t), u) == Count(s, u) - (if u == t then 1 else 0)
  {
    if s != [] {
      WithoutCount(s[1..], t, u);
    }
  }

  lemma GiveBolt(s: BoltState, n: nat, h: Holders, t: Task, op: Operation)
    requires BoltConsistent(s, n, h) && t in Held(h, op)
    ensures s == Expected(op)
    ensures op.Enter? ==>
        BoltConsistent(if Decrement(n) == 0 then Free else Entered, Decrement(n), h.(entered := Without(h.entered, t)))
    ensures op.Reserve? ==> BoltConsistent(Free, n, h.(reserved := Without(h.reserved, t)))
  {
  }

  /** Giving back what one holds never meets a wrong state and keeps the books. */
  lemma {:induction false} ReleaseConsistent(w: World, t: Task, op: Operation, bolts: seq<BoltId>)
    requires Consistent(w) && Holds(w, t, op, bolts)
    ensures Release(w, t, op, bolts).1 && Consistent(Release(w, t, op, bolts).0)
    ensures Release(w, t, op, bolts).0.waiters == w.waiters
    ensures forall o: Operation, b: BoltId, u: Task ::
        HeldBy(Release(w, t, op, bolts).0, o, b, u)
        == HeldBy(w, o, b, u) - (if o == op && u == t then Mentions(bolts, b) else 0)
  {
    if bolts != [] {
      var front, last := bolts[..|bolts| - 1], bolts[|bolts| - 1];
      assert forall b: BoltId :: Mentions(bolts, b) == Mentions(front, b) + (if b == last then 1 else 0);
      ReleaseConsistent(w, t, op, front);
      var x := Release(w, t, op, front).0;
      ReleaseOneConsistent(x, t, op, last);
    }
  }

  lemma ReleaseOneConsistent(x: World, t: Task, op: Operation, b: BoltId)
    requires Consistent(x) && HeldBy(x, op, b, t) > 0
    ensures x.State(b) == Expected(op) && Consistent(ReleaseOne(x, t, op, b))
    ensures forall o: Operation, c: BoltId, u: Task ::
        HeldBy(ReleaseOne(x, t, op, b), o, c, u) == HeldBy(x, o, c, u) - (if o == op && u == t && c == b then 1 else 0)
  {
    WithoutCount(Held(x.Holding(b), op), t, t);
    GiveBolt(x.State(b), x.Enters(b), x.Holding(b), t, op);
    var y := ReleaseOne(x, t, op, b);
    forall c: BoltId ensures BoltConsistent(y.State(c), y.Enters(c), y.Holding(c)) {
      if c != b {
        assert y.Holding(c) == x.Holding(c) && y.Enters(c) == x.Enters(c) && y.State(c) == x.State(c);
      }
    }
    forall o: Operation, c: BoltId, u: Task
      ensures HeldBy(y, o, c, u) == HeldBy(x, o, c, u) - (if o == op && u == t && c == b then 1 else 0)
    {
      WithoutCount(Held(x.Holding(b), op), t, u);
      if c != b { assert y.Holding(c) == x.Holding(c); }
    }
  }

  // ---------------------------------------------------------------- the books

  /** Tasks wait for something, a RESERVE without duplicates, in the order of their priority. */
  ghost predicate Sane(q: seq<Request>) {
    && (forall i :: 0 <= i < |q| ==> q[i].bolts != [] && (q[i].op.Reserve? ==> NoDuplicates(q[i].bolts)))
    && (forall i, j :: 0 <= i < j < |q| ==> q[i].prio <= q[j].prio)
  }

  ghost predicate Busy(w: World, b: BoltId) {
    w.Holding(b) != Holders([], [])
  }

  ghost predicate SomeBusy(w: World) {
    exists b: BoltId :: Busy(w, b)
  }

  /** The books are right, the queue is in order, and nobody waits while nobody holds a bolt. */
  ghost predicate Invariant(w: World) {
    Consistent(w) && Sane(w.waiters) && (w.waiters != [] ==> SomeBusy(w))
  }

  lemma BlockedDespiteQueue(w: World, q: seq<Request>, op: Operation, bolts: seq<BoltId>)
    ensures Blocked(w.(waiters := q), op, bolts) == Blocked(w, op, bolts)
  {
    assert forall b: BoltId :: w.(waiters := q).State(b) == w.State(b);
  }

  lemma ConsistentDespiteQueue(w: World, q: seq<Request>)
    ensures Consistent(w.(waiters := q)) <==> Consistent(w)
    ensures SomeBusy(w) ==> SomeBusy(w.(waiters := q))
  {
    var x := w.(waiters := q);
    assert forall b: BoltId :: x.State(b) == w.State(b) && x.Enters(b) == w.Enters(b) && x.Holding(b) == w.Holding(b);
    if SomeBusy(w) {
      var b: BoltId :| Busy(w, b);
      assert Busy(x, b);
    }
  }

  lemma SaneInsert(q: seq<Request>, r: Request)
    requires Sane(q) && r.bolts != [] && (r.op.Reserve? ==> NoDuplicates(r.bolts))
    ensures Sane(Insert(q, r))
  {
    var k := Place(q, r.prio);
    var p := Insert(q, r);
    assert forall i :: 0 <= i < |p| ==> p[i] == if i < k then q[i] else if i == k then r else q[i - 1];
  }

  lemma SaneDrop(q: seq<Request>, i: nat)
    requires Sane(q) && i < |q|
    ensures Sane(Drop(q, i))
  {
    var p := Drop(q, i);
    assert forall k :: 0 <= k < |p| ==> p[k] == if k < i then q[k] else q[k + 1];
  }

  /** A bolt that blocks anything is held. */
  lemma BlockedBusy(w: World, op: Operation, bolts: seq<BoltId>)
    requires Consistent(w) && Blocked(w, op, bolts)
    ensures SomeBusy(w) && bolts != []
  {
    var i :| 0 <= i < |bolts| && BoltBlocks(w.State(bolts[i]), op);
    var b := bolts[i];
    assert BoltConsistent(w.State(b), w.Enters(b), w.Holding(b));
    assert Busy(w, b);
  }

  /** A grant leaves its last bolt held, and takes nothing from anybody. */
  lemma GrantBusy(w: World, t: Task, op: Operation, bolts: seq<BoltId>)
    ensures bolts != [] || SomeBusy(w) ==> SomeBusy(Grant(w, t, op, bolts))
  {
    var x := Grant(w, t, op, bolts);
    if bolts != [] {
      var b := bolts[|bolts| - 1];
      GrantExact(w, t, op, bolts, b);
      assert Busy(x, b);
    }
  }

  /** A scan with a request to grant grants the first one: the books stay right, the queue
      stays in order without it, and somebody holds a bolt. */
  lemma PassGrants(w: World, op: Operation)
    requires Consistent(w) && Sane(w.waiters)
    ensures var x := Pass(w, op).0;
            var i := First(w, w.waiters, op);
            && Consistent(x) && Sane(x.waiters) && NoFreer(w, x) && (SomeBusy(w) ==> SomeBusy(x))
            && (i < |w.waiters| ==> SomeBusy(x) && x.waiters == Drop(w.waiters, i))
            && (i < |w.waiters| ==> forall b: BoltId :: x.State(b) == Taken(w, op, w.waiters[i].bolts, b))
            && (i == |w.waiters| ==> x == w)
  {
    var q := w.waiters;
    var i := First(w, q, op);
    if i < |q| {
      var r := q[i];
      GrantConsistent(w, r.task, op, r.bolts);
      GrantBusy(w, r.task, op, r.bolts);
      ConsistentDespiteQueue(Grant(w, r.task, op, r.bolts), Drop(q, i));
      SaneDrop(q, i);
      var g, x := Grant(w, r.task, op, r.bolts), Pass(w, op).0;
      assert forall b: BoltId :: x.State(b) == g.State(b);
    }
  }

  /** The granted request is the most urgent of its kind among those that could go on. */
  lemma PassMostUrgent(w: World, op: Operation, k: nat)
    requires Sane(w.waiters) && k < |w.waiters| && Grantable(w, w.waiters[k], op)
    ensures var i := First(w, w.waiters, op);
            i < |w.waiters| && i <= k && w.waiters[i].prio <= w.waiters[k].prio
  {
    var i := First(w, w.waiters, op);
    assert i <= k;
  }

  /** When nobody holds a bolt every request can be granted. */
  lemma NobodyBlocks(w: World, q: seq<Request>, op: Operation)
    requires Consistent(w) && !SomeBusy(w)
    ensures First(w, q, op) < |q| <==> SomeOf(q, op)
    ensures !SomeOf(q[..First(w, q, op)], op)
  {
    forall r: Request ensures !Blocked(w, r.op, r.bolts) {
      if Blocked(w, r.op, r.bolts) { BlockedBusy(w, r.op, r.bolts); }
    }
  }

  /** The two scans keep the books, and if anybody waits afterwards somebody holds a bolt. */
  lemma WakeInvariant(w: World)
    requires Consistent(w) && Sane(w.waiters)
    ensures Invariant(Wake(w)) && NoFreer(w, Wake(w))
  {
    var (x, reserveIsWaiting) := Pass(w, Reserve);
    PassGrants(w, Reserve);
    if !reserveIsWaiting {
      PassGrants(x, Enter);
    }
    if !SomeBusy(w) && w.waiters != [] {
      NobodyBlocks(w, w.waiters, Reserve);
      NobodyBlocks(w, w.waiters, Enter);
      assert SomeOf(w.waiters, w.waiters[0].op);
    }
  }

  /** The two scans let nobody go on who could not before. */
  lemma WakeUnblocksNobody(w: World, r: Request)
    requires Consistent(w) && Sane(w.waiters) && Blocked(w, r.op, r.bolts)
    ensures Blocked(Wake(w), r.op, r.bolts)
  {
    WakeInvariant(w);
    BlockedStays(w, Wake(w), r.op, r.bolts);
  }

  // ---------------------------------------------------------------- runs

  /** LEAVE and FREE name only bolts their caller holds. */
  ghost predicate Allowed(w: World, a: Action) {
    a.GiveBack? ==> Holds(w, a.task, a.op, a.bolts)
  }

  /** Every step keeps the invariant. */
  lemma StepInvariant(w: World, a: Action)
    requires Invariant(w) && Allowed(w, a)
    ensures Invariant(Step(w, a))
  {
    match a
    case Ask(r) =>
      if r.op.Reserve? && !NoDuplicates(r.bolts) {
      } else if Blocked(w, r.op, r.bolts) {
        BlockedBusy(w, r.op, r.bolts);
        SaneInsert(w.waiters, r);
        ConsistentDespiteQueue(w, Insert(w.waiters, r));
      } else {
        GrantConsistent(w, r.task, r.op, r.bolts);
        GrantExact(w, r.task, r.op, r.bolts, 0);
        GrantBusy(w, r.task, r.op, r.bolts);
      }
    case GiveBack(t, op, bolts) =>
      ReleaseConsistent(w, t, op, bolts);
      WakeInvariant(Release(w, t, op, bolts).0);
  }

  const INITIAL := World(map[], map[], map[], [])

  function Run(w: World, actions: seq<Action>): World
    decreases |actions|
  {
    if actions == [] then w else Run(Step(w, actions[0]), actions[1..])
  }

  ghost predicate AllowedRun(w: World, actions: seq<Action>)
    decreases |actions|
  {
    actions != [] ==> Allowed(w, actions[0]) && AllowedRun(Step(w, actions[0]), actions[1..])
  }

  /** Over every run from free bolts the books are right. */
  lemma {:induction false} RunInvariant(w: World, actions: seq<Action>)
    requires Invariant(w) && AllowedRun(w, actions)
    ensures Invariant(Run(w, actions))
    decreases |actions|
  {
    if actions != [] {
      StepInvariant(w, actions[0]);
      RunInvariant(Step(w, actions[0]), actions[1..]);
    }
  }

  lemma InitialInvariant()
    ensures Invariant(INITIAL)
  {
    forall b: BoltId ensures BoltConsistent(INITIAL.State(b), INITIAL.Enters(b), INITIAL.Holding(b)) {
    }
  }

  /** Nobody is left alone: over every run, when no task holds a bolt, no task waits. */
  lemma NobodyStranded(actions: seq<Action>)
    requires AllowedRun(INITIAL, actions)
    requires forall b: BoltId :: Run(INITIAL, actions).Holding(b) == Holders([], [])
    ensures Run(INITIAL, actions).waiters == []
  {
    InitialInvariant();
    RunInvariant(INITIAL, actions);
  }

  /** A reserved bolt is held by one task alone. */
  lemma Exclusive(w: World, b: BoltId, t: Task, u: Task, op: Operation)
    requires Consistent(w) && HeldBy(w, Reserve, b, t) > 0 && HeldBy(w, op, b, u) > 0
    ensures t == u && op == Reserve && w.State(b) == Reserved
  {
    assert BoltConsistent(w.State(b), w.Enters(b), w.Holding(b));
    WithoutCount(w.Holding(b).reserved, t, t);
    WithoutCount(Held(w.Holding(b), op), u, u);
  }

  /** A request gets all of its bolts, or nothing about the bolts changes. */
  lemma AllOrNothing(w: World, r: Request, b: BoltId)
    ensures var x := Step(w, Ask(r));
            var n := Mentions(r.bolts, b);
            if Blocked(w, r.op, r.bolts) || (r.op.Reserve? && !NoDuplicates(r.bolts)) then
              x.(waiters := w.waiters) == w
            else
              && x.waiters == w.waiters
              && Held(x.Holding(b), r.op) == Held(w.Holding(b), r.op) + Times(r.task, n)
              && x.State(b) == Taken(w, r.op, r.bolts, b)
  {
    if !Blocked(w, r.op, r.bolts) {
      GrantExact(w, r.task, r.op, r.bolts, b);
      GrantState(w, r.task, r.op, r.bolts, b);
    }
  }

  lemma {:induction false} GrantState(w: World, t: Task, op: Operation, bolts: seq<BoltId>, b: BoltId)
    ensures Grant(w, t, op, bolts).State(b) == Taken(w, op, bolts, b)
  {
    if bolts != [] {
      assert bolts == bolts[..|bolts| - 1] + [bolts[|bolts| - 1]];
      GrantState(w, t, op, bolts[..|bolts| - 1], b);
    }
  }

  // ---------------------------------------------------------------- the counters

  /** A bolt in a wrong state ends the release, whatever follows. */
  lemma {:induction false} ReleaseStops(w: World, t: Task, op: Operation, bolts: seq<BoltId>, i: nat)
    requires i <= |bolts| && !Release(w, t, op, bolts[..i]).1
    ensures Release(w, t, op, bolts) == Release(w, t, op, bolts[..i])
  {
    if i < |bolts| {
      assert bolts[..|bolts| - 1][..i] == bolts[..i];
      ReleaseStops(w, t, op, bolts[..|bolts| - 1], i);
    } else {
      assert bolts[..i] == bolts;
    }
  }

  lemma {:induction false} GrantDespiteQueue(w: World, q: seq<Request>, t: Task, op: Operation, bolts: seq<BoltId>)
    ensures Grant(w.(waiters := q), t, op, bolts) == Grant(w, t, op, bolts).(waiters := q)
  {
    if bolts != [] {
      GrantDespiteQueue(w, q, t, op, bolts[..|bolts| - 1]);
    }
  }

  lemma {:induction false} ReleaseDespiteQueue(w: World, q: seq<Request>, t: Task, op: Operation, bolts: seq<BoltId>)
    ensures var (x, ok) := Release(w, t, op, bolts); Release(w.(waiters := q), t, op, bolts) == (x.(waiters := q), ok)
  {
    if bolts != [] {
      ReleaseDespiteQueue(w, q, t, op, bolts[..|bolts| - 1]);
    }
  }
}
