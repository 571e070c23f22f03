/** What ENTER, RESERVE, LEAVE and FREE answer, in terms of who holds the bolts and of their
    counters (Bolt.cc). */
module BoltLaws {
  import opened Bolts

  /** Some task has the bolt in this way. */
  predicate HeldAs(w: World, b: BoltId, op: Operation) {
    Held(w.Holding(b), op) != []
  }

  /** An ENTER waits exactly for the bolts that are reserved, a RESERVE for all that are held. */
  lemma BlockedExact(w: World, op: Operation, bolts: seq<BoltId>)
    requires Consistent(w)
    ensures Blocked(w, op, bolts) <==>
        exists i :: 0 <= i < |bolts| && (HeldAs(w, bolts[i], Reserve) || (op.Reserve? && HeldAs(w, bolts[i], Enter)))
  {
    forall i | 0 <= i < |bolts|
      ensures BoltBlocks(w.State(bolts[i]), op)
          <==> HeldAs(w, bolts[i], Reserve) || (op.Reserve? && HeldAs(w, bolts[i], Enter))
    {
      var b := bolts[i];
      assert BoltConsistent(w.State(b), w.Enters(b), w.Holding(b));
    }
  }

  /** p is the queue q with r at place k, behind all of the same or a more urgent priority and
      before all others. */
  ghost predicate Joined(q: seq<Request>, r: Request, p: seq<Request>, k: nat) {
    && k <= |q| && p == q[..k] + [r] + q[k..]
    && (forall i :: 0 <= i < k ==> q[i].prio <= r.prio)
    && (forall i :: k <= i < |q| ==> q[i].prio > r.prio)
  }

  /** A blocked request joins the queue; a RESERVE that names a bolt twice changes nothing. */
  lemma AskExact(w: World, r: Request)
    requires Sane(w.waiters)
    ensures r.op.Reserve? && !NoDuplicates(r.bolts) ==> Step(w, Ask(r)) == w
    ensures Blocked(w, r.op, r.bolts) && (r.op.Reserve? ==> NoDuplicates(r.bolts)) ==>
        exists k: nat :: Joined(w.waiters, r, Step(w, Ask(r)).waiters, k)
  {
    var q, k := w.waiters, Place(w.waiters, r.prio);
    assert forall i :: k < i < |q| ==> q[k].prio <= q[i].prio;
    assert forall i :: k <= i < |q| ==> q[i].prio > r.prio;
    assert Joined(q, r, Insert(q, r), k);
    if Blocked(w, r.op, r.bolts) && (r.op.Reserve? ==> NoDuplicates(r.bolts)) {
      assert Step(w, Ask(r)).waiters == Insert(q, r);
    }
  }

  /** The counters tell which bolts are entered. */
  ghost predicate Counted(w: World) {
    forall b: BoltId {:trigger w.State(b)} :: w.State(b).Entered? <==> w.Enters(b) > 0
  }

  /** A bolt can be given back as often as a LEAVE or FREE names it. */
  predicate CanGive(w: World, op: Operation, bolts: seq<BoltId>, b: BoltId) {
    var n := Mentions(bolts, b);
    n > 0 ==> w.State(b) == Expected(op) && n <= if op.Enter? then w.Enters(b) else 1
  }

  /** Giving back succeeds exactly when every bolt can be given back as often as it is named,
      by its holder or not. Then an entered bolt keeps the rest of its count and is free
      without one, and a reserved bolt is free. */
  lemma {:induction false} ReleaseExact(w: World, t: Task, op: Operation, bolts: seq<BoltId>)
    requires Counted(w)
    ensures Release(w, t, op, bolts).1 <==> forall b: BoltId :: CanGive(w, op, bolts, b)
    ensures Release(w, t, op, bolts).1 ==> forall b: BoltId ::
        var x, n := Release(w, t, op, bolts).0, Mentions(bolts, b);
        && x.Enters(b) == (if op.Enter? then w.Enters(b) - n else w.Enters(b))
        && x.State(b) == (if n > 0 && (op.Reserve? || w.Enters(b) == n) then Free else w.State(b))
  {
    if bolts != [] {
      var front, last := bolts[..|bolts| - 1], bolts[|bolts| - 1];
      assert forall b: BoltId :: Mentions(bolts, b) == Mentions(front, b) + (if b == last then 1 else 0);
      ReleaseExact(w, t, op, front);
      if Release(w, t, op, front).1 {
        assert forall b: BoltId :: b != last ==> CanGive(w, op, front, b) == CanGive(w, op, bolts, b);
        assert Release(w, t, op, bolts).1 <==> CanGive(w, op, bolts, last);
      } else {
        var b: BoltId :| !CanGive(w, op, front, b);
        assert !CanGive(w, op, bolts, b);
      }
    }
  }

  /** The bolts before the i-th can be given back, and then that one is in a wrong state. */
  ghost predicate WrongAt(w: World, t: Task, op: Operation, bolts: seq<BoltId>, i: nat) {
    i < |bolts| && Release(w, t, op, bolts[..i]).1 && Release(w, t, op, bolts[..i]).0.State(bolts[i]) != Expected(op)
  }

  /** Otherwise the first bolt in a wrong state ends the operation: the ones before it stay
      given back, the ones behind it stay as they are, and nobody is woken. */
  lemma {:induction false} WrongStateEnds(w: World, t: Task, op: Operation, bolts: seq<BoltId>)
    requires !Release(w, t, op, bolts).1
    ensures exists i: nat ::
        WrongAt(w, t, op, bolts, i) && Step(w, GiveBack(t, op, bolts)) == Release(w, t, op, bolts[..i]).0
  {
    var front := bolts[..|bolts| - 1];
    if Release(w, t, op, front).1 {
      assert WrongAt(w, t, op, bolts, |front|);
    } else {
      WrongStateEnds(w, t, op, front);
      var i: nat :|
        WrongAt(w, t, op, front, i) && Step(w, GiveBack(t, op, front)) == Release(w, t, op, front[..i]).0;
      assert front[..i] == bolts[..i] && WrongAt(w, t, op, bolts, i);
    }
  }
}
