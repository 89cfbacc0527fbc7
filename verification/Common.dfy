/** Types that several parts of the kernel share. */
module Common {

  type TaskId = nat

  datatype Option<T> = None | Some(value: T)

  datatype Error = E_OK | E_OBJ | E_ILUSE | E_TMOUT | E_RLWAI | E_DLT | E_RASTER | E_QOVR | E_CTX | E_PAR

  /** A timeout: poll, wait without end, or wait for some time. Besides, a service that can wait sees
      whether the termination of its task has been requested (raster); one that only polls does not look
      at that, and is the case without a request. */
  datatype Tmo = Poll | Forever | Finite

  ghost predicate Distinct<T>(s: seq<T>) {
    forall i, j :: 0 <= i < j < |s| ==> s[i] != s[j]
  }

  /** Sequence s with x before its k-th element. */
  function InsertAt<T>(s: seq<T>, k: nat, x: T): (r: seq<T>)
    requires k <= |s|
    ensures |r| == |s| + 1
  {
    s[..k] + [x] + s[k..]
  }

  lemma InsertIndex<T>(s: seq<T>, k: nat, x: T, i: nat)
    requires k <= |s| && i <= |s|
    ensures InsertAt(s, k, x)[i] == if i < k then s[i] else if i == k then x else s[i - 1]
  {
  }

  lemma InsertMembers<T>(s: seq<T>, k: nat, x: T)
    requires k <= |s|
    ensures forall y :: y in InsertAt(s, k, x) <==> y in s || y == x
  {
    assert s == s[..k] + s[k..];
  }

  lemma DistinctInsert<T>(s: seq<T>, k: nat, x: T)
    requires Distinct(s) && k <= |s| && x !in s
    ensures Distinct(InsertAt(s, k, x))
  {
    hide InsertAt;
    var r := InsertAt(s, k, x);
    forall i: nat, j: nat | i < j < |r|
      ensures r[i] != r[j]
    {
      InsertIndex(s, k, x, i);
      InsertIndex(s, k, x, j);
    }
  }

  ghost predicate Ascending(pris: seq<int>) {
    forall i, j :: 0 <= i < j < |pris| ==> pris[i] <= pris[j]
  }

  /** Where something of the given priority goes: behind everything that is at least as urgent, up to the
      first that is not. Small numbers are urgent. */
  function PriorityPlace(pris: seq<int>, pri: int): (k: nat)
    ensures k <= |pris|
    ensures forall i :: 0 <= i < k ==> pris[i] <= pri
    ensures k < |pris| ==> pri < pris[k]
  {
    if pris == [] || pri < pris[0] then 0 else 1 + PriorityPlace(pris[1..], pri)
  }

  /** No other place is like that. */
  lemma {:induction false} PriorityPlaceIs(pris: seq<int>, pri: int, k: nat)
    requires k <= |pris| && (forall i :: 0 <= i < k ==> pris[i] <= pri) && (k < |pris| ==> pri < pris[k])
    ensures PriorityPlace(pris, pri) == k
  {
    if k > 0 {
      PriorityPlaceIs(pris[1..], pri, k - 1);
    }
  }

  /** Inserting at the place keeps the order, and puts the newcomer last among equals. */
  lemma PriorityPlaceKeepsOrder(pris: seq<int>, pri: int)
    requires Ascending(pris)
    ensures Ascending(InsertAt(pris, PriorityPlace(pris, pri), pri))
    ensures forall i :: PriorityPlace(pris, pri) <= i < |pris| ==> pri < pris[i]
  {
    hide InsertAt;
    var k := PriorityPlace(pris, pri);
    forall i | k <= i < |pris|
      ensures pri < pris[i]
    {
      assert pris[k] <= pris[i];
    }
    var s := InsertAt(pris, k, pri);
    forall i: nat, j: nat | i < j < |s|
      ensures s[i] <= s[j]
    {
      InsertIndex(pris, k, pri, i);
      InsertIndex(pris, k, pri, j);
    }
  }

  /** A position in a ring of n places, after it has been advanced by at most n. */
  function Around(p: nat, n: nat): nat {
    if p < n then p else p - n
  }
}

/** The tasks that wait for one object, in the order in which they get it. */
module WaitQueue {
  import opened Common

  /** A waiting task, its priority, and what its wait information block holds for the object. */
  datatype Waiter<T> = Waiter(task: TaskId, pri: nat, info: T)

  function Priorities<T>(s: seq<Waiter<T>>): (p: seq<int>)
    ensures |p| == |s| && forall i :: 0 <= i < |s| ==> p[i] == s[i].pri
  {
    seq(|s|, (i: nat) requires i < |s| => s[i].pri)
  }

  ghost predicate ByPriority<T>(s: seq<Waiter<T>>) {
    Ascending(Priorities(s))
  }

  /** How many tasks stay ahead of a newcomer of priority pri. */
  function Spot<T>(s: seq<Waiter<T>>, pri: nat): (k: nat)
    ensures k <= |s| && (forall i :: 0 <= i < k ==> s[i].pri <= pri) && (k < |s| ==> pri < s[k].pri)
  {
    PriorityPlace(Priorities(s), pri)
  }

  /** wobj_queue_insert: the queue after a newcomer, in the order of arrival or by priority. */
  function Join<T>(s: seq<Waiter<T>>, x: Waiter<T>, byPriority: bool): (r: seq<Waiter<T>>)
    ensures |r| == |s| + 1
  {
    InsertAt(s, if byPriority then Spot(s, x.pri) else |s|, x)
  }

  /** Where the tasks of the queue are afterwards. */
  lemma JoinAt<T>(s: seq<Waiter<T>>, x: Waiter<T>, byPriority: bool, i: nat)
    requires i <= |s|
    ensures var k := if byPriority then Spot(s, x.pri) else |s|;
            Join(s, x, byPriority)[i] == if i < k then s[i] else if i == k then x else s[i - 1]
  {
    hide InsertAt;
    InsertIndex(s, if byPriority then Spot(s, x.pri) else |s|, x, i);
  }

  /** The order by priority is kept; among equals it is the order of arrival. */
  lemma JoinKeepsOrder<T>(s: seq<Waiter<T>>, x: Waiter<T>)
    requires ByPriority(s)
    ensures ByPriority(Join(s, x, true))
    ensures forall i :: 0 <= i < |s| && s[i].pri == x.pri ==> i < Spot(s, x.pri)
  {
    hide Join, InsertAt, Priorities;
    var p, k := Priorities(s), Spot(s, x.pri);
    PriorityPlaceKeepsOrder(p, x.pri);
    var r := Join(s, x, true);
    forall i: nat | i < |r|
      ensures Priorities(r)[i] == InsertAt(p, k, x.pri)[i]
    {
      JoinAt(s, x, true, i);
      InsertIndex(p, k, x.pri, i);
    }
    assert Priorities(r) == InsertAt(p, k, x.pri);
  }

  lemma JoinHolds<T>(s: seq<Waiter<T>>, x: Waiter<T>, byPriority: bool)
    ensures forall y :: y in Join(s, x, byPriority) <==> y in s || y == x
  {
    InsertMembers(s, if byPriority then Spot(s, x.pri) else |s|, x);
  }

  function Tasks<T>(s: seq<Waiter<T>>): (r: seq<TaskId>)
    ensures |r| == |s| && forall i :: 0 <= i < |s| ==> r[i] == s[i].task
  {
    seq(|s|, (i: nat) requires i < |s| => s[i].task)
  }

  /** The queue after the i-th task has left it, because its wait has timed out, has been released or
      has ended with the task. */
  function Leave<T>(s: seq<Waiter<T>>, i: nat): (r: seq<Waiter<T>>)
    requires i < |s|
    ensures |r| == |s| - 1
  {
    s[..i] + s[i + 1..]
  }

  lemma LeaveHolds<T>(s: seq<Waiter<T>>, i: nat)
    requires i < |s|
    ensures forall y :: y in Leave(s, i) ==> y in s
    ensures forall y :: y in s && y != s[i] ==> y in Leave(s, i)
  {
    assert s == s[..i] + [s[i]] + s[i + 1..];
  }

  lemma LeaveAt<T>(s: seq<Waiter<T>>, i: nat, k: nat)
    requires i < |s| && k < |s| - 1
    ensures Leave(s, i)[k] == if k < i then s[k] else s[k + 1]
  {
  }

  lemma LeaveKeepsOrder<T>(s: seq<Waiter<T>>, i: nat)
    requires ByPriority(s) && i < |s|
    ensures ByPriority(Leave(s, i))
  {
    hide Leave, Priorities;
    var p, r := Priorities(s), Leave(s, i);
    forall j: nat, k: nat | j < k < |r|
      ensures Priorities(r)[j] <= Priorities(r)[k]
    {
      LeaveAt(s, i, j);
      LeaveAt(s, i, k);
      assert p[if j < i then j else j + 1] <= p[if k < i then k else k + 1];
    }
  }

  /** wobj_change_priority: the queue after the i-th task has got another priority. In a queue by
      priority it goes behind all that are at least as urgent. */
  function Requeue<T>(s: seq<Waiter<T>>, i: nat, pri: nat, byPriority: bool): (r: seq<Waiter<T>>)
    requires i < |s|
    ensures |r| == |s|
  {
    if byPriority then Join(Leave(s, i), s[i].(pri := pri), true) else s[i := s[i].(pri := pri)]
  }

  /** Without priorities the task keeps its place. By priority it goes behind all others that are at least as
      urgent as it now is, and before the rest, which keep their order. */
  lemma RequeueIs<T>(s: seq<Waiter<T>>, i: nat, pri: nat, byPriority: bool)
    requires i < |s|
    ensures !byPriority ==> Requeue(s, i, pri, byPriority) == s[..i] + [Waiter(s[i].task, pri, s[i].info)] + s[i + 1..]
    ensures byPriority ==>
      var l := s[..i] + s[i + 1..];
      exists k: nat ::
        && k <= |l| && (forall j :: 0 <= j < k ==> l[j].pri <= pri) && (k < |l| ==> pri < l[k].pri)
        && Requeue(s, i, pri, byPriority) == l[..k] + [Waiter(s[i].task, pri, s[i].info)] + l[k..]
  {
    if byPriority {
      var l := Leave(s, i);
      var k := Spot(l, pri);
      assert Requeue(s, i, pri, true) == l[..k] + [Waiter(s[i].task, pri, s[i].info)] + l[k..];
    }
  }

  /** First come, first served: tasks that join a queue without priorities stand in it in their order. */
  lemma JoinInTurn<T>(s: seq<Waiter<T>>, x: Waiter<T>, y: Waiter<T>)
    ensures Join(s, x, false) == s + [x] && Join(Join(s, x, false), y, false) == s + [x, y]
  {
  }

  lemma RequeueKeepsOrder<T>(s: seq<Waiter<T>>, i: nat, pri: nat)
    requires ByPriority(s) && i < |s|
    ensures ByPriority(Requeue(s, i, pri, true))
  {
    hide Join, Leave;
    LeaveKeepsOrder(s, i);
    JoinKeepsOrder(Leave(s, i), s[i].(pri := pri));
  }

  /** The same tasks wait, for the same things. */
  lemma RequeueHolds<T>(s: seq<Waiter<T>>, i: nat, pri: nat, byPriority: bool)
    requires i < |s|
    ensures forall y :: y in Requeue(s, i, pri, byPriority) ==> y in s || y == s[i].(pri := pri)
  {
    hide Join, Leave;
    var x := s[i].(pri := pri);
    var r := Requeue(s, i, pri, byPriority);
    forall k: nat | k < |r|
      ensures r[k] in s || r[k] == x
    {
      if byPriority {
        var l := Leave(s, i);
        var n := Spot(l, pri);
        JoinAt(l, x, true, k);
        if k != n {
          LeaveAt(s, i, if k < n then k else k - 1);
        }
      }
    }
  }

  lemma HeadLeaves<T>(s: seq<Waiter<T>>)
    requires s != []
    ensures Leave(s, 0) == s[1..] && (ByPriority(s) ==> ByPriority(s[1..]))
  {
    if ByPriority(s) {
      LeaveKeepsOrder(s, 0);
    }
    assert Leave(s, 0) == s[1..];
  }
}
