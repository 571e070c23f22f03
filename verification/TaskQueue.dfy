/** The wait queue: tasks linked through their control blocks in the order of their priority
    (PriorityQueue.cc, getNext and setNext in TaskCommon.cc). */
module TaskQueue {
  import opened Bolts

  class TaskCommon {
    const task: Task
    const prio: int
    var next: TaskCommon?   // blockParams.next
    var why: Request        // blockParams.why

    constructor (task: Task, prio: int)
      ensures this.task == task && this.prio == prio && next == null
    {
      this.task, this.prio := task, prio;
      next, why := null, Request(task, prio, Enter, []);
    }
  }

  class PriorityQueue {
    var head: TaskCommon?
    ghost var tasks: seq<TaskCommon>
    ghost var requests: seq<Request>

    constructor ()
      ensures Valid() && tasks == [] && requests == []
    {
      head, tasks, requests := null, [], [];
    }

    ghost function At(i: nat): TaskCommon?
      reads this
    {
      if i < |tasks| then tasks[i] else null
    }

    ghost function Members(): set<TaskCommon>
      reads this
    {
      set x | x in tasks
    }

    /** The links run through the tasks in order. */
    ghost predicate Links()
      reads this, tasks
    {
      && head == At(0)
      && (forall i :: 0 <= i < |tasks| ==> tasks[i].next == At(i + 1))
      && Distinct(tasks)
    }

    /** Each task has its request. */
    ghost predicate Asked()
      reads this, tasks
    {
      Asks(tasks, requests)
    }

    ghost predicate Valid()
      reads this, tasks
    {
      Links() && Asked()
    }

    method LinkHead(x: TaskCommon)
      requires Links() && x !in tasks
      modifies `head, `tasks, x`next
      ensures Links() && tasks == [x] + old(tasks)
    {
      x.next := head;
      head := x;
      tasks := [x] + tasks;
    }

    method LinkBehind(x: TaskCommon, i: TaskCommon, ghost p: nat)
      requires Links() && x !in tasks && p < |tasks| && tasks[p] == i
      modifies `tasks, x`next, i`next
      ensures Links() && tasks == InsertAt(old(tasks), p + 1, x)
    {
      ghost var was := tasks;
      InsertedAt(tasks, p + 1, x);
      x.next := i.next;
      i.next := x;
      tasks := InsertAt(tasks, p + 1, x);
      forall k | 0 <= k < |tasks| ensures tasks[k].next == At(k + 1) {
        if k < p {
          assert tasks[k] == was[k] && was[k] != i;
        } else if k > p + 1 {
          assert tasks[k] == was[k - 1] && was[k - 1] != i;
        }
      }
    }

    /** The last task of the same or a more urgent priority. */
    method FindPlace(prio: int) returns (i: TaskCommon, ghost p: nat)
      requires Valid() && head != null && head.prio <= prio
      ensures p < |tasks| && i == tasks[p] && p + 1 == Place(requests, prio)
    {
      i, p := head, 0;
      while true
        invariant p < |tasks| && i == tasks[p] && p < Place(requests, prio)
        decreases |tasks| - p
      {
        var n := i.next;
        if n == null || (i.prio <= prio && prio < n.prio) {
          break;
        }
        i := n;
        p := p + 1;
      }
    }

    /** The request of the task linked in at place k is recorded. */
    method Record(x: TaskCommon, ghost was: seq<TaskCommon>, ghost k: nat)
      requires Links() && Asks(was, requests) && k == Place(requests, x.prio) <= |was| && x.why.prio == x.prio
      requires tasks == InsertAt(was, k, x)
      modifies `requests
      ensures Valid() && requests == Insert(old(requests), x.why)
    {
      AskedInsert(was, requests, x, k);
      requests := Insert(requests, x.why);
    }

    /** insert: behind all tasks of the same or a more urgent priority. */
    method InsertTask(x: TaskCommon)
      requires Valid() && x !in tasks && x.why.prio == x.prio
      modifies this, x`next, Members()
      ensures Valid() && requests == Insert(old(requests), x.why)
      ensures tasks == InsertAt(old(tasks), Place(old(requests), x.prio), x)
    {
      if head == null || head.prio > x.prio {
        InsertAtHead(x);
      } else {
        InsertBehindHead(x);
      }
    }

    method InsertAtHead(x: TaskCommon)
      requires Valid() && x !in tasks && x.why.prio == x.prio
      requires head == null || head.prio > x.prio
      modifies this, x`next
      ensures Valid() && requests == Insert(old(requests), x.why) && x.why == old(x.why)
      ensures tasks == InsertAt(old(tasks), Place(old(requests), x.prio), x)
    {
      ghost var was := tasks;
      LinkHead(x);
      assert tasks == InsertAt(was, 0, x);
      Record(x, was, 0);
    }

    method InsertBehindHead(x: TaskCommon)
      requires Valid() && x !in tasks && x.why.prio == x.prio
      requires head != null && head.prio <= x.prio
      modifies this, x`next, Members()
      ensures Valid() && requests == Insert(old(requests), x.why) && x.why == old(x.why)
      ensures tasks == InsertAt(old(tasks), Place(old(requests), x.prio), x)
    {
      ghost var was := tasks;
      var i, p := FindPlace(x.prio);
      LinkBehind(x, i, p);
      Record(x, was, p + 1);
    }

    method UnlinkHead(x: TaskCommon)
      requires Links() && x == head
      modifies `head, `tasks, x`next
      ensures Links() && old(tasks) != [] && tasks == old(tasks[1..]) && x.next == null
    {
      head := x.next;
      x.next := null;
      tasks := tasks[1..];
    }

    method UnlinkBehind(x: TaskCommon, i: TaskCommon, ghost p: nat)
      requires Links() && p + 1 < |tasks| && tasks[p] == i && tasks[p + 1] == x
      modifies `tasks, x`next, i`next
      ensures Links() && tasks == RemoveAt(old(tasks), p + 1) && x.next == null
    {
      ghost var was := tasks;
      RemovedAt(tasks, p + 1);
      i.next := x.next;
      x.next := null;
      tasks := RemoveAt(tasks, p + 1);
      forall k | 0 <= k < |tasks| ensures tasks[k].next == At(k + 1) {
        var j := if k <= p then k else k + 1;
        assert tasks[k] == was[j] && was[j] != x && (k != p ==> was[j] != i);
      }
    }

    /** The task whose link leads to x, if x is queued behind the head. */
    method FindBefore(x: TaskCommon) returns (i: TaskCommon?, ghost p: nat)
      requires Links() && x != head
      ensures i != null ==> p + 1 < |tasks| && tasks[p] == i && tasks[p + 1] == x
      ensures i == null ==> x !in tasks
    {
      i, p := head, 0;
      while i != null
        invariant p <= |tasks| && i == At(p) && x !in tasks[..p] && (p < |tasks| ==> tasks[p] != x)
        decreases |tasks| - p
      {
        if i.next == x {
          return;
        }
        i := i.next;
        p := p + 1;
      }
      assert tasks[..p] == tasks;
    }

    method Forget(ghost was: seq<TaskCommon>, ghost k: nat)
      requires Links() && Asks(was, requests) && k < |was| && tasks == RemoveAt(was, k)
      modifies `requests
      ensures Valid() && requests == Drop(old(requests), k)
    {
      AskedRemove(was, requests, k);
      requests := Drop(requests, k);
    }

    /** remove: the task is taken out and its link is cleared; false if it was not queued. */
    method Remove(x: TaskCommon) returns (found: bool, ghost k: nat)
      requires Valid()
      modifies this, x`next, Members()
      ensures Valid() && (found <==> x in old(tasks))
      ensures found ==>
          && k < |old(tasks)| && old(tasks)[k] == x && x.next == null
          && tasks == RemoveAt(old(tasks), k) && requests == Drop(old(requests), k)
      ensures !found ==> tasks == old(tasks) && requests == old(requests)
    {
      ghost var was := tasks;
      if head == x {
        UnlinkHead(x);
        assert tasks == RemoveAt(was, 0);
        Forget(was, 0);
        return true, 0;
      }
      var i, p := FindBefore(x);
      if i == null {
        return false, 0;
      }
      UnlinkBehind(x, i, p);
      Forget(was, p + 1);
      return true, p + 1;
    }

    function GetHead(): TaskCommon?
      reads this
    {
      head
    }

    function GetNext(x: TaskCommon): TaskCommon?
      reads x
    {
      x.next
    }
  }

  ghost predicate Distinct<T>(s: seq<T>) {
    forall i, j :: 0 <= i < j < |s| ==> s[i] != s[j]
  }

  lemma InsertedAt<T>(s: seq<T>, k: nat, x: T)
    requires k <= |s|
    ensures forall i :: 0 <= i <= |s| ==>
        InsertAt(s, k, x)[i] == if i < k then s[i] else if i == k then x else s[i - 1]
    ensures Distinct(s) && x !in s ==> Distinct(InsertAt(s, k, x))
  {
    var r := InsertAt(s, k, x);
    forall i | 0 <= i <= |s| ensures r[i] == if i < k then s[i] else if i == k then x else s[i - 1] {
    }
  }

  lemma RemovedAt<T>(s: seq<T>, k: nat)
    requires k < |s|
    ensures forall i :: 0 <= i < |s| - 1 ==> RemoveAt(s, k)[i] == s[if i < k then i else i + 1]
    ensures Distinct(s) ==> Distinct(RemoveAt(s, k))
  {
  }

  function InsertAt<T>(s: seq<T>, k: nat, x: T): seq<T>
    requires k <= |s|
  {
    s[..k] + [x] + s[k..]
  }

  function RemoveAt<T>(s: seq<T>, k: nat): seq<T>
    requires k < |s|
  {
    s[..k] + s[k + 1..]
  }

  ghost predicate Asks(tasks: seq<TaskCommon>, requests: seq<Request>)
    reads tasks
  {
    |requests| == |tasks|
    && forall i :: 0 <= i < |tasks| ==> tasks[i].why == requests[i] && requests[i].prio == tasks[i].prio
  }

  lemma AskedInsert(tasks: seq<TaskCommon>, requests: seq<Request>, x: TaskCommon, k: nat)
    requires Asks(tasks, requests) && k == Place(requests, x.prio) && x.why.prio == x.prio
    ensures Asks(InsertAt(tasks, k, x), Insert(requests, x.why))
  {
    var s, q := InsertAt(tasks, k, x), Insert(requests, x.why);
    forall i | 0 <= i < |s| ensures s[i].why == q[i] && q[i].prio == s[i].prio {
      if i < k {
        assert s[i] == tasks[i] && q[i] == requests[i];
      } else if i > k {
        assert s[i] == tasks[i - 1] && q[i] == requests[i - 1];
      }
    }
  }

  lemma AskedRemove(tasks: seq<TaskCommon>, requests: seq<Request>, k: nat)
    requires Asks(tasks, requests) && k < |tasks|
    ensures Asks(RemoveAt(tasks, k), Drop(requests, k))
  {
    var s, q := RemoveAt(tasks, k), Drop(requests, k);
    forall i | 0 <= i < |s| ensures s[i].why == q[i] && q[i].prio == s[i].prio {
      var j := if i < k then i else i + 1;
      assert s[i] == tasks[j] && q[i] == requests[j];
    }
  }
}
