/** The tables of the kernel as values, and the facts about them that the operations of module
    Kernel need: ready queues, wait queues, mutex chains and priorities. */
module KernelState {
  import opened Common
  import opened Primap
  import opened TaskState

  type MtxId = nat

  /** WINFO: a union. While a task waits it tells whether a time event is registered; after the
      wait it holds the result. */
  datatype Winfo = Event(registered: bool) | Wercd(ercd: Error)

  /** The fields of a task control block, less the priority, the time event and the last mutex. */
  datatype Tcb = Tcb(tstat: Tstat, bpri: nat, actque: bool, wupque: bool, raster: bool, enater: bool, winfo: Winfo)

  /** SCHEDCB: a scheduling unit. */
  datatype Schedcb = Schedcb(queue: seq<seq<TaskId>>, primap: bv16, pred: Option<TaskId>)

  datatype Mtxcb = Mtxcb(loctsk: Option<TaskId>, prev: Option<MtxId>)

  /** Where a task's queue entry is linked. */
  datatype Place = Nowhere | Ready | Wait(q: nat)

  const TNUM_TPRI: nat := 16
  const KERNEL: nat := 0

  // ---------- Queues ----------

  /** Queue s holds the tasks that belong in it, each once. */
  ghost predicate IsReadyQueue(s: seq<TaskId>, u: nat, p: nat, place: seq<Place>, pri: seq<nat>, unit: seq<nat>) {
    && |place| == |pri| == |unit|
    && Distinct(s)
    && forall t: TaskId :: t in s <==> t < |place| && place[t] == Ready && unit[t] == u && pri[t] == p
  }

  ghost predicate UnitQueues(queue: seq<seq<TaskId>>, u: nat, place: seq<Place>, pri: seq<nat>, unit: seq<nat>) {
    && |queue| == TNUM_TPRI
    && forall p: nat :: p < TNUM_TPRI ==> IsReadyQueue(queue[p], u, p, place, pri, unit)
  }

  ghost predicate ReadyQueues(sched: seq<Schedcb>, place: seq<Place>, pri: seq<nat>, unit: seq<nat>) {
    forall u: nat :: u < |sched| ==> UnitQueues(sched[u].queue, u, place, pri, unit)
  }

  ghost predicate IsWaitQueue(s: seq<TaskId>, q: nat, place: seq<Place>) {
    && Distinct(s)
    && forall t: TaskId :: t in s <==> t < |place| && place[t] == Wait(q)
  }

  ghost predicate WaitQueues(wq: seq<seq<TaskId>>, place: seq<Place>) {
    && (forall t: TaskId :: t < |place| && place[t].Wait? ==> place[t].q < |wq|)
    && forall q :: 0 <= q < |wq| ==> IsWaitQueue(wq[q], q, place)
  }

  ghost predicate InRange(s: seq<TaskId>, n: nat) {
    forall i :: 0 <= i < |s| ==> s[i] < n
  }

  /** Ascending numbers are descending urgency. */
  ghost predicate ByPriority(s: seq<TaskId>, pri: seq<nat>) {
    && InRange(s, |pri|)
    && forall i, j :: 0 <= i < j < |s| ==> pri[s[i]] <= pri[s[j]]
  }

  lemma DistinctCons<T>(s: seq<T>)
    requires s != []
    ensures Distinct(s) <==> s[0] !in s[1..] && Distinct(s[1..])
  {
    if Distinct(s) {
      assert forall i :: 0 <= i < |s| - 1 ==> s[1..][i] == s[i + 1];
    } else if s[0] !in s[1..] && Distinct(s[1..]) {
      forall i, j | 0 <= i < j < |s|
        ensures s[i] != s[j]
      {
        assert s[j] == s[1..][j - 1];
        if i > 0 {
          assert s[i] == s[1..][i - 1];
        }
      }
      assert false;
    }
  }

  lemma DistinctSnoc<T>(s: seq<T>, x: T)
    requires Distinct(s) && x !in s
    ensures Distinct(s + [x]) && Distinct([x] + s)
  {
    DistinctCons([x] + s);
    assert ([x] + s)[1..] == s;
  }

  lemma ByPriorityCons(s: seq<TaskId>, pri: seq<nat>)
    requires s != []
    ensures ByPriority(s, pri) <==> s[0] < |pri| && ByPriority(s[1..], pri) && forall x: TaskId :: x in s[1..] ==> x < |pri| && pri[s[0]] <= pri[x]
  {
    assert s == [s[0]] + s[1..];
    if ByPriority(s, pri) {
      forall x: TaskId | x in s[1..]
        ensures s[0] < |pri| && x < |pri| && pri[s[0]] <= pri[x]
      {
        var j :| 0 <= j < |s[1..]| && s[1..][j] == x;
        assert x == s[j + 1];
      }
      forall i, j | 0 <= i < j < |s[1..]|
        ensures pri[s[1..][i]] <= pri[s[1..][j]]
      {
        assert s[1..][i] == s[i + 1] && s[1..][j] == s[j + 1];
      }
    } else if s[0] < |pri| && ByPriority(s[1..], pri) && forall x: TaskId :: x in s[1..] ==> x < |pri| && pri[s[0]] <= pri[x] {
      forall i, j | 0 <= i < j < |s|
        ensures s[i] < |pri| && s[j] < |pri| && pri[s[i]] <= pri[s[j]]
      {
        assert s[j] == s[1..][j - 1];
        if i > 0 {
          assert s[i] == s[1..][i - 1];
        }
      }
      assert false;
    }
  }

  /** Sequence s without its first t. */
  function Without(s: seq<nat>, t: nat): (r: seq<nat>) {
    if s == [] then []
    else if s[0] == t then s[1..]
    else [s[0]] + Without(s[1..], t)
  }

  lemma {:induction false} WithoutHolds(s: seq<TaskId>, t: TaskId)
    requires Distinct(s)
    ensures Distinct(Without(s, t))
    ensures forall x: TaskId :: x in Without(s, t) <==> x in s && x != t
  {
    hide Distinct;
    if s != [] {
      DistinctCons(s);
      assert forall x: TaskId :: x in s <==> x == s[0] || x in s[1..];
      if s[0] != t {
        WithoutHolds(s[1..], t);
        assert Without(s, t)[1..] == Without(s[1..], t);
        DistinctCons(Without(s, t));
      }
    } else {
      assert Without(s, t) == s;
    }
  }

  lemma {:induction false} WithoutByPriority(s: seq<TaskId>, t: TaskId, pri: seq<nat>)
    requires Distinct(s) && ByPriority(s, pri)
    ensures ByPriority(Without(s, t), pri)
  {
    hide Distinct, ByPriority;
    if s != [] {
      ByPriorityCons(s, pri);
      DistinctCons(s);
      if s[0] != t {
        WithoutByPriority(s[1..], t, pri);
        WithoutHolds(s[1..], t);
        assert Without(s, t)[1..] == Without(s[1..], t);
        ByPriorityCons(Without(s, t), pri);
      }
    } else {
      assert Without(s, t) == s;
    }
  }

  /** queue_insert_tpri: a task goes behind all tasks that are at least as urgent. */
  function InsertTpri(s: seq<TaskId>, t: TaskId, pri: seq<nat>): (r: seq<TaskId>)
    requires t < |pri| && InRange(s, |pri|)
  {
    if s == [] || pri[t] < pri[s[0]] then [t] + s else [s[0]] + InsertTpri(s[1..], t, pri)
  }

  function PrioritiesOf(s: seq<TaskId>, pri: seq<nat>): (p: seq<int>)
    requires InRange(s, |pri|)
    ensures |p| == |s| && forall i :: 0 <= i < |s| ==> p[i] == pri[s[i]]
  {
    seq(|s|, (i: nat) requires i < |s| => assert InRange(s, |pri|); pri[s[i]])
  }

  /** That is the place for its priority. */
  lemma {:induction false} InsertTpriPlace(s: seq<TaskId>, t: TaskId, pri: seq<nat>)
    requires t < |pri| && InRange(s, |pri|)
    ensures InsertTpri(s, t, pri) == InsertAt(s, PriorityPlace(PrioritiesOf(s, pri), pri[t]), t)
  {
    hide InsertAt;
    var p := PrioritiesOf(s, pri);
    if s == [] || pri[t] < pri[s[0]] {
      InsertAtStart(s, t);
    } else {
      InsertTpriPlace(s[1..], t, pri);
      assert PrioritiesOf(s[1..], pri) == p[1..];
      InsertAtRest(s, PriorityPlace(p[1..], pri[t]), t);
    }
  }

  lemma InsertAtStart(s: seq<TaskId>, t: TaskId)
    ensures InsertAt(s, 0, t) == [t] + s
  {
  }

  lemma InsertAtRest(s: seq<TaskId>, k: nat, t: TaskId)
    requires k < |s|
    ensures InsertAt(s, k + 1, t) == [s[0]] + InsertAt(s[1..], k, t)
  {
  }

  lemma {:induction false} InsertTpriHolds(s: seq<TaskId>, t: TaskId, pri: seq<nat>)
    requires t < |pri| && t !in s && Distinct(s) && InRange(s, |pri|)
    ensures Distinct(InsertTpri(s, t, pri))
    ensures forall x: TaskId :: x in InsertTpri(s, t, pri) <==> x in s || x == t
    ensures InRange(InsertTpri(s, t, pri), |pri|)
  {
    hide Distinct;
    var r := InsertTpri(s, t, pri);
    if s == [] || pri[t] < pri[s[0]] {
      assert r[1..] == s;
    } else {
      DistinctCons(s);
      assert forall x: TaskId :: x in s <==> x == s[0] || x in s[1..];
      InsertTpriHolds(s[1..], t, pri);
      assert r[1..] == InsertTpri(s[1..], t, pri);
    }
    DistinctCons(r);
  }

  lemma {:induction false} InsertTpriByPriority(s: seq<TaskId>, t: TaskId, pri: seq<nat>)
    requires t < |pri| && t !in s && Distinct(s) && ByPriority(s, pri)
    ensures ByPriority(InsertTpri(s, t, pri), pri)
  {
    hide Distinct;
    var r := InsertTpri(s, t, pri);
    InsertTpriHolds(s, t, pri);
    if s == [] || pri[t] < pri[s[0]] {
      assert r[1..] == s;
      if s != [] {
        ByPriorityCons(s, pri);
      }
    } else {
      ByPriorityCons(s, pri);
      DistinctCons(s);
      InsertTpriByPriority(s[1..], t, pri);
      InsertTpriHolds(s[1..], t, pri);
      assert r[1..] == InsertTpri(s[1..], t, pri);
    }
    ByPriorityCons(r, pri);
  }

  // ---------- Ready queues ----------

  /** The most urgent priority with a task, or the number of queues if there is none. */
  function BestPri(queue: seq<seq<TaskId>>, from: nat): (p: nat)
    requires from <= |queue|
    ensures from <= p <= |queue|
    ensures forall i :: from <= i < p ==> queue[i] == []
    ensures p < |queue| ==> queue[p] != []
    decreases |queue| - from
  {
    if from == |queue| || queue[from] != [] then from else BestPri(queue, from + 1)
  }

  /** The task that goes first in a scheduling unit: the head of its best non-empty queue. */
  function Best(queue: seq<seq<TaskId>>): Option<TaskId> {
    var p := BestPri(queue, 0);
    if p < |queue| then Some(queue[p][0]) else None
  }

  lemma BestSome(queue: seq<seq<TaskId>>, p: nat)
    requires p < |queue| && queue[p] != []
    ensures Best(queue).Some?
  {
  }

  lemma BestIs(queue: seq<seq<TaskId>>, p: nat)
    requires p < |queue| && queue[p] != [] && forall i :: 0 <= i < p ==> queue[i] == []
    ensures Best(queue) == Some(queue[p][0])
  {
    var b := BestPri(queue, 0);
    assert b >= p;
  }

  /** Each priority's bit is set exactly if its queue holds a task. */
  ghost predicate BitsOk(queue: seq<seq<TaskId>>, primap: bv16) {
    |queue| == TNUM_TPRI && forall q: nat :: q < TNUM_TPRI ==> (Has(primap, q) <==> queue[q] != [])
  }

  /** The cached parts of a scheduling unit agree with its queues. */
  ghost predicate CacheOk(s: Schedcb) {
    BitsOk(s.queue, s.primap) && s.pred == Best(s.queue)
  }

  ghost predicate Caches(sched: seq<Schedcb>, n: nat) {
    forall u: nat :: u < |sched| ==> CacheOk(sched[u]) && (sched[u].pred.Some? ==> sched[u].pred.value < n)
  }

  /** update_schedtsk: the kernel domain against the current unit, and the idle unit after both. */
  function Select(sched: seq<Schedcb>, pri: seq<nat>, twd: nat, idle: nat): Option<TaskId>
    requires |sched| > 0 && twd < |sched| && idle < |sched|
    requires sched[KERNEL].pred.Some? ==> sched[KERNEL].pred.value < |pri|
    requires sched[twd].pred.Some? ==> sched[twd].pred.value < |pri|
  {
    if sched[KERNEL].pred.Some? then
      if sched[twd].pred.Some? && pri[sched[twd].pred.value] < pri[sched[KERNEL].pred.value]
      then sched[twd].pred
      else sched[KERNEL].pred
    else if sched[twd].pred.Some? then sched[twd].pred
    else sched[idle].pred
  }

  lemma SelectSame(sched: seq<Schedcb>, sched': seq<Schedcb>, pri: seq<nat>, twd: nat, idle: nat)
    requires 0 < |sched| == |sched'| && twd < |sched| && idle < |sched| && Caches(sched, |pri|)
    requires forall v: nat :: v < |sched| ==> sched'[v].pred == sched[v].pred
    ensures Select(sched', pri, twd, idle) == Select(sched, pri, twd, idle)
  {
  }

  /** The priority of a task that is in no ready queue does not matter to the selection. */
  lemma SelectIgnores(sched: seq<Schedcb>, place: seq<Place>, pri: seq<nat>, unit: seq<nat>, t: TaskId, newpri: nat, twd: nat, idle: nat)
    requires 0 < |sched| && twd < |sched| && idle < |sched| && Caches(sched, |pri|) && t < |place|
    requires ReadyQueues(sched, place, pri, unit) && |place| == |pri| == |unit| && place[t] != Ready
    ensures Select(sched, pri[t := newpri], twd, idle) == Select(sched, pri, twd, idle)
  {
    forall u: nat | u < |sched| && sched[u].pred.Some?
      ensures sched[u].pred.value != t
    {
      assert UnitQueues(sched[u].queue, u, place, pri, unit);
      PredPriority(sched[u], u, place, pri, unit);
    }
  }

  /** The priority of a task that goes first nowhere, before and after, does not matter either. */
  lemma SelectWithoutTask(sched: seq<Schedcb>, sched': seq<Schedcb>, place: seq<Place>, pri: seq<nat>, unit: seq<nat>,
                          t: TaskId, newpri: nat, twd: nat, idle: nat)
    requires 0 < |sched| == |sched'| && twd < |sched| && idle < |sched| && Caches(sched, |pri|) && t < |pri|
    requires ReadyQueues(sched, place, pri, unit) && |place| == |pri| == |unit| && unit[t] < |sched|
    requires sched[unit[t]].pred != Some(t)
    requires forall v: nat :: v < |sched| ==> sched'[v].pred == sched[v].pred
    ensures Select(sched', pri[t := newpri], twd, idle) == Select(sched, pri, twd, idle)
  {
    forall u: nat | u < |sched| && sched[u].pred.Some?
      ensures sched[u].pred.value != t
    {
      assert UnitQueues(sched[u].queue, u, place, pri, unit);
      PredPriority(sched[u], u, place, pri, unit);
    }
  }

  /** The selected task is in a ready queue. */
  lemma SelectIsReady(sched: seq<Schedcb>, place: seq<Place>, pri: seq<nat>, unit: seq<nat>, twd: nat, idle: nat)
    requires 0 < |sched| && twd < |sched| && idle < |sched| && Caches(sched, |pri|)
    requires ReadyQueues(sched, place, pri, unit) && |place| == |pri| == |unit|
    ensures var t := Select(sched, pri, twd, idle); t.Some? ==> t.value < |place| && place[t.value] == Ready
  {
    forall u: nat | u < |sched| && sched[u].pred.Some?
      ensures sched[u].pred.value < |place| && place[sched[u].pred.value] == Ready
    {
      assert UnitQueues(sched[u].queue, u, place, pri, unit);
      PredPriority(sched[u], u, place, pri, unit);
    }
  }

  /** Of all ready queues, only that of unit u and priority p has changed, to s. */
  ghost predicate QueueReplaced(sched: seq<Schedcb>, sched': seq<Schedcb>, u: nat, p: nat, s: seq<TaskId>) {
    && u < |sched| == |sched'| && p < |sched[u].queue|
    && forall v: nat :: v < |sched| ==>
         sched'[v].queue == if v == u then sched[u].queue[p := s] else sched[v].queue
  }

  /** A ready queue that gains a task, which was linked nowhere. */
  lemma ReadyGains(sched: seq<Schedcb>, sched': seq<Schedcb>, place: seq<Place>, pri: seq<nat>, unit: seq<nat>, t: TaskId, s: seq<TaskId>)
    requires ReadyQueues(sched, place, pri, unit) && |place| == |pri| == |unit|
    requires t < |place| && place[t] != Ready && unit[t] < |sched| && pri[t] < TNUM_TPRI
    requires QueueReplaced(sched, sched', unit[t], pri[t], s)
    requires Distinct(s) && forall x: TaskId :: x in s <==> x in sched[unit[t]].queue[pri[t]] || x == t
    ensures ReadyQueues(sched', place[t := Ready], pri, unit)
  {
    var place' := place[t := Ready];
    forall u: nat | u < |sched'|
      ensures UnitQueues(sched'[u].queue, u, place', pri, unit)
    {
      var queue' := sched'[u].queue;
      assert UnitQueues(sched[u].queue, u, place, pri, unit);
      forall p: nat | p < TNUM_TPRI
        ensures IsReadyQueue(queue'[p], u, p, place', pri, unit)
      {
        assert IsReadyQueue(sched[u].queue[p], u, p, place, pri, unit);
      }
    }
  }

  /** A ready queue that loses a task. */
  lemma ReadyLoses(sched: seq<Schedcb>, sched': seq<Schedcb>, place: seq<Place>, pri: seq<nat>, unit: seq<nat>, t: TaskId, s: seq<TaskId>, pl: Place)
    requires ReadyQueues(sched, place, pri, unit) && |place| == |pri| == |unit|
    requires t < |place| && place[t] == Ready && unit[t] < |sched| && pri[t] < TNUM_TPRI && pl != Ready
    requires QueueReplaced(sched, sched', unit[t], pri[t], s)
    requires Distinct(s) && forall x: TaskId :: x in s <==> x in sched[unit[t]].queue[pri[t]] && x != t
    ensures ReadyQueues(sched', place[t := pl], pri, unit)
  {
    var place' := place[t := pl];
    forall u: nat | u < |sched'|
      ensures UnitQueues(sched'[u].queue, u, place', pri, unit)
    {
      var queue' := sched'[u].queue;
      assert UnitQueues(sched[u].queue, u, place, pri, unit);
      forall p: nat | p < TNUM_TPRI
        ensures IsReadyQueue(queue'[p], u, p, place', pri, unit)
      {
        assert IsReadyQueue(sched[u].queue[p], u, p, place, pri, unit);
      }
    }
  }

  /** The priority of the task that goes first in its unit is the best one with a task. */
  lemma PredPriority(sc: Schedcb, u: nat, place: seq<Place>, pri: seq<nat>, unit: seq<nat>)
    requires CacheOk(sc) && UnitQueues(sc.queue, u, place, pri, unit) && sc.pred.Some?
    ensures sc.pred.value < |pri| && place[sc.pred.value] == Ready && unit[sc.pred.value] == u
    ensures pri[sc.pred.value] == BestPri(sc.queue, 0) < TNUM_TPRI
    ensures sc.queue[pri[sc.pred.value]][0] == sc.pred.value
  {
    var p := BestPri(sc.queue, 0);
    assert IsReadyQueue(sc.queue[p], u, p, place, pri, unit);
    assert sc.queue[p][0] in sc.queue[p];
  }

  /** A task that is in no ready queue may change its place and its priority freely. */
  lemma ReadyIgnores(sched: seq<Schedcb>, place: seq<Place>, pri: seq<nat>, unit: seq<nat>, t: TaskId, pl: Place, newpri: nat)
    requires ReadyQueues(sched, place, pri, unit) && |place| == |pri| == |unit|
    requires t < |place| && place[t] != Ready && pl != Ready
    ensures ReadyQueues(sched, place[t := pl], pri[t := newpri], unit)
  {
    var place', pri' := place[t := pl], pri[t := newpri];
    forall u: nat | u < |sched|
      ensures UnitQueues(sched[u].queue, u, place', pri', unit)
    {
      var queue := sched[u].queue;
      assert UnitQueues(queue, u, place, pri, unit);
      forall p: nat | p < TNUM_TPRI
        ensures IsReadyQueue(queue[p], u, p, place', pri', unit)
      {
        assert IsReadyQueue(queue[p], u, p, place, pri, unit);
      }
    }
  }

  /** A unit stays consistent when task t joins queue p, at the tail or at the front, if its bit is
      set and t goes first when it is more urgent than the task that did, or when it is as urgent
      and in front. */
  lemma CacheGains(sc: Schedcb, sc': Schedcb, u: nat, p: nat, t: TaskId, front: bool,
                   place: seq<Place>, pri: seq<nat>, unit: seq<nat>)
    requires CacheOk(sc) && UnitQueues(sc.queue, u, place, pri, unit) && p < TNUM_TPRI
    requires sc'.queue == sc.queue[p := if front then [t] + sc.queue[p] else sc.queue[p] + [t]]
    requires sc'.primap == sc.primap | PrimapBit(p)
    requires sc.pred.Some? ==> sc.pred.value < |pri|
    requires var first := sc.pred.None? || p < pri[sc.pred.value] || (front && p == pri[sc.pred.value]);
             sc'.pred == if first then Some(t) else sc.pred
    ensures CacheOk(sc')
  {
    hide Has, PrimapBit;
    BitsSet(sc.queue, sc.primap, p, if front then [t] + sc.queue[p] else sc.queue[p] + [t]);
    if sc.pred.Some? {
      PredPriority(sc, u, place, pri, unit);
    }
    BestIs(sc'.queue, if sc'.pred == sc.pred && sc.pred.Some? && pri[sc.pred.value] < p then pri[sc.pred.value] else p);
  }

  lemma BitsSet(queue: seq<seq<TaskId>>, primap: bv16, p: nat, s: seq<TaskId>)
    requires BitsOk(queue, primap) && p < TNUM_TPRI && s != []
    ensures BitsOk(queue[p := s], primap | PrimapBit(p))
    ensures BitsOk(queue, primap) && queue[p] != [] ==> BitsOk(queue[p := s], primap)
  {
    hide Has, PrimapBit;
    var queue', primap' := queue[p := s], primap | PrimapBit(p);
    forall q: nat | q < TNUM_TPRI
      ensures Has(primap', q) <==> queue'[q] != []
    {
      SetBit(primap, p, q);
    }
  }

  lemma BitsCleared(queue: seq<seq<TaskId>>, primap: bv16, p: nat)
    requires BitsOk(queue, primap) && p < TNUM_TPRI
    ensures BitsOk(queue[p := []], primap & !PrimapBit(p))
  {
    hide Has, PrimapBit;
    var queue', primap' := queue[p := []], primap & !PrimapBit(p);
    forall q: nat | q < TNUM_TPRI
      ensures Has(primap', q) <==> queue'[q] != []
    {
      ClearBit(primap, p, q);
    }
  }

  lemma BitsEmpty(queue: seq<seq<TaskId>>, primap: bv16)
    requires BitsOk(queue, primap)
    ensures primap == 0 <==> Best(queue) == None
  {
    var b := BestPri(queue, 0);
    if b < TNUM_TPRI {
      assert Has(primap, b);
      assert 0 & PrimapBit(b) == 0;
    } else {
      NoBits(primap);
    }
  }

  /** A queue that loses a task other than its head keeps its head. */
  lemma WithoutKeepsHead(s: seq<TaskId>, t: TaskId)
    requires s != [] && s[0] != t
    ensures Without(s, t) != [] && Without(s, t)[0] == s[0]
  {
  }

  /** Which task goes first after task t has left queue p of its unit. */
  lemma BestLoses(sc: Schedcb, u: nat, p: nat, t: TaskId, place: seq<Place>, pri: seq<nat>, unit: seq<nat>)
    requires CacheOk(sc) && UnitQueues(sc.queue, u, place, pri, unit)
    requires p < TNUM_TPRI && t in sc.queue[p]
    ensures sc.pred.Some?
    ensures var s := Without(sc.queue[p], t); var queue := sc.queue[p := s];
            && (sc.pred == Some(t) && s != [] ==> Best(queue) == Some(s[0]))
            && (sc.pred != Some(t) ==> Best(queue) == sc.pred)
  {
    var b := BestPri(sc.queue, 0);
    var s := Without(sc.queue[p], t);
    assert IsReadyQueue(sc.queue[p], u, p, place, pri, unit);
    assert b <= p;
    PredPriority(sc, u, place, pri, unit);
    if sc.pred == Some(t) {
      assert pri[t] == b == p;
      if s != [] {
        BestIs(sc.queue[p := s], p);
      }
    } else {
      if b == p {
        WithoutKeepsHead(sc.queue[p], t);
      }
      BestIs(sc.queue[p := s], b);
    }
  }

  /** Which task goes first after task t has moved from queue oldpri to queue newpri. */
  lemma BestMoves(sc: Schedcb, u: nat, t: TaskId, oldpri: nat, newpri: nat, front: bool,
                  place: seq<Place>, pri: seq<nat>, unit: seq<nat>)
    requires CacheOk(sc) && UnitQueues(sc.queue, u, place, pri, unit)
    requires oldpri < TNUM_TPRI && newpri < TNUM_TPRI && t in sc.queue[oldpri]
    ensures sc.pred.Some? && sc.pred.value < |pri|
    ensures var queue := Moved(sc.queue, t, oldpri, newpri, front);
            && (sc.pred == Some(t) && newpri < oldpri ==> Best(queue) == Some(t))
            && (sc.pred != Some(t) ==>
                  var first := newpri < pri[sc.pred.value] || (front && newpri == pri[sc.pred.value]);
                  Best(queue) == if first then Some(t) else sc.pred)
  {
    var b := BestPri(sc.queue, 0);
    var q1 := sc.queue[oldpri := Without(sc.queue[oldpri], t)];
    var queue := Moved(sc.queue, t, oldpri, newpri, front);
    assert IsReadyQueue(sc.queue[oldpri], u, oldpri, place, pri, unit);
    assert b <= oldpri;
    PredPriority(sc, u, place, pri, unit);
    if sc.pred == Some(t) {
      if newpri < oldpri {
        assert pri[t] == b == oldpri;
        BestIs(queue, newpri);
      }
    } else {
      if b == oldpri {
        WithoutKeepsHead(sc.queue[oldpri], t);
      }
      BestIs(queue, if newpri < b then newpri else b);
    }
  }

  /** A task's move from one queue of its unit to another, or within one. */
  function Moved(queue: seq<seq<TaskId>>, t: TaskId, oldpri: nat, newpri: nat, front: bool): (r: seq<seq<TaskId>>)
    requires oldpri < |queue| && newpri < |queue|
  {
    var q1 := queue[oldpri := Without(queue[oldpri], t)];
    q1[newpri := if front then [t] + q1[newpri] else q1[newpri] + [t]]
  }

  /** The queues afterwards, one by one. */
  lemma MovedIs(queue: seq<seq<TaskId>>, t: TaskId, oldpri: nat, newpri: nat, front: bool)
    requires oldpri < |queue| && newpri < |queue|
    ensures var r := Moved(queue, t, oldpri, newpri, front);
            var s := if newpri == oldpri then Without(queue[oldpri], t) else queue[newpri];
            && |r| == |queue| && r[newpri] == (if front then [t] + s else s + [t])
            && (newpri != oldpri ==> r[oldpri] == Without(queue[oldpri], t))
            && forall p: nat :: p < |queue| && p != oldpri && p != newpri ==> r[p] == queue[p]
  {
  }

  /** Tasks have joined ready queues at their tails, and none has left one. */
  ghost predicate QueuesGrow(sched: seq<Schedcb>, sched': seq<Schedcb>) {
    |sched'| == |sched| && forall u: nat :: u < |sched| ==>
      |sched'[u].queue| == |sched[u].queue| && forall p: nat :: p < |sched[u].queue| ==> sched[u].queue[p] <= sched'[u].queue[p]
  }

  lemma TailGrows(sched: seq<Schedcb>, sched': seq<Schedcb>, u: nat, p: nat, t: TaskId)
    requires u < |sched| && p < |sched[u].queue| && QueueReplaced(sched, sched', u, p, sched[u].queue[p] + [t])
    ensures QueuesGrow(sched, sched')
  {
  }

  /** Of all ready queues, only those between which task t of unit u has moved have changed. */
  ghost predicate MovedQueues(sched: seq<Schedcb>, sched': seq<Schedcb>, u: nat, t: TaskId, oldpri: nat, newpri: nat, front: bool) {
    && u < |sched| == |sched'| && |sched[u].queue| == TNUM_TPRI && oldpri < TNUM_TPRI && newpri < TNUM_TPRI
    && forall v: nat :: v < |sched| ==>
         sched'[v].queue == if v == u then Moved(sched[u].queue, t, oldpri, newpri, front) else sched[v].queue
  }

  lemma CachesUpdate(sched: seq<Schedcb>, u: nat, sc: Schedcb, n: nat)
    requires Caches(sched, n) && u < |sched| && CacheOk(sc) && (sc.pred.Some? ==> sc.pred.value < n)
    ensures Caches(sched[u := sc], n)
  {
  }

  /** The ready queues after a task has changed its priority and its place in them. */
  lemma ReadyMoves(sched: seq<Schedcb>, sched': seq<Schedcb>, place: seq<Place>, pri: seq<nat>, unit: seq<nat>,
                   t: TaskId, newpri: nat, front: bool)
    requires ReadyQueues(sched, place, pri, unit) && |place| == |pri| == |unit|
    requires t < |place| && place[t] == Ready && unit[t] < |sched| && pri[t] < TNUM_TPRI && newpri < TNUM_TPRI
    requires MovedQueues(sched, sched', unit[t], t, pri[t], newpri, front)
    ensures ReadyQueues(sched', place, pri[t := newpri], unit)
  {
    hide ReadyQueues, IsReadyQueue, UnitQueues;
    var u, p := unit[t], pri[t];
    QueueFacts(sched, place, pri, unit, u, p);
    var s := Without(sched[u].queue[p], t);
    WithoutHolds(sched[u].queue[p], t);
    var sched1 := sched[u := sched[u].(queue := sched[u].queue[p := s])];
    var place1, pri1 := place[t := Nowhere], pri[t := newpri];
    ReadyLoses(sched, sched1, place, pri, unit, t, s, Nowhere);
    ReadyIgnores(sched1, place1, pri, unit, t, Nowhere, newpri);
    assert place1[t := Nowhere] == place1;
    QueueFacts(sched1, place1, pri1, unit, u, newpri);
    var q := sched1[u].queue[newpri];
    DistinctSnoc(q, t);
    ReadyGains(sched1, sched', place1, pri1, unit, t, if front then [t] + q else q + [t]);
    assert place1[t := Ready] == place;
  }

  lemma QueueFacts(sched: seq<Schedcb>, place: seq<Place>, pri: seq<nat>, unit: seq<nat>, u: nat, p: nat)
    requires ReadyQueues(sched, place, pri, unit) && u < |sched| && p < TNUM_TPRI
    requires |place| == |pri| == |unit|
    ensures |sched[u].queue| == TNUM_TPRI && Distinct(sched[u].queue[p])
    ensures forall t: TaskId :: t in sched[u].queue[p] <==> t < |place| && place[t] == Ready && unit[t] == u && pri[t] == p
  {
    assert UnitQueues(sched[u].queue, u, place, pri, unit);
    assert IsReadyQueue(sched[u].queue[p], u, p, place, pri, unit);
  }

  lemma RotateHolds(s: seq<TaskId>)
    requires Distinct(s) && s != []
    ensures Distinct(s[1..] + [s[0]]) && forall x: TaskId :: x in s[1..] + [s[0]] <==> x in s
  {
    hide Distinct;
    DistinctCons(s);
    DistinctSnoc(s[1..], s[0]);
    assert forall x: TaskId :: x in s <==> x == s[0] || x in s[1..];
  }

  lemma RotateCache(sc: Schedcb, u: nat, p: nat, place: seq<Place>, pri: seq<nat>, unit: seq<nat>)
    requires CacheOk(sc) && UnitQueues(sc.queue, u, place, pri, unit) && p < TNUM_TPRI && |sc.queue[p]| >= 2
    ensures var q := sc.queue[p]; var r := q[1..] + [q[0]];
            CacheOk(Schedcb(sc.queue[p := r], sc.primap, if sc.pred == Some(q[0]) then Some(r[0]) else sc.pred))
  {
    hide Has, PrimapBit;
    var q := sc.queue[p];
    var r := q[1..] + [q[0]];
    BitsSet(sc.queue, sc.primap, p, r);
    PredPriority(sc, u, place, pri, unit);
    var b := BestPri(sc.queue, 0);
    BestIs(sc.queue[p := r], b);
    assert IsReadyQueue(q, u, p, place, pri, unit);
    assert q[0] in q;
  }

  lemma ReadyPermutes(sched: seq<Schedcb>, sched': seq<Schedcb>, place: seq<Place>, pri: seq<nat>, unit: seq<nat>, u: nat, p: nat, s: seq<TaskId>)
    requires ReadyQueues(sched, place, pri, unit) && u < |sched| && p < TNUM_TPRI
    requires QueueReplaced(sched, sched', u, p, s)
    requires Distinct(s) && forall x: TaskId :: x in s <==> x in sched[u].queue[p]
    ensures ReadyQueues(sched', place, pri, unit)
  {
    forall v: nat | v < |sched'|
      ensures UnitQueues(sched'[v].queue, v, place, pri, unit)
    {
      var queue' := sched'[v].queue;
      assert UnitQueues(sched[v].queue, v, place, pri, unit);
      forall r: nat | r < TNUM_TPRI
        ensures IsReadyQueue(queue'[r], v, r, place, pri, unit)
      {
        assert IsReadyQueue(sched[v].queue[r], v, r, place, pri, unit);
      }
    }
  }

  // ---------- Wait queues ----------

  lemma WaitFacts(wq: seq<seq<TaskId>>, place: seq<Place>, q: nat)
    requires WaitQueues(wq, place) && q < |wq|
    ensures Distinct(wq[q]) && InRange(wq[q], |place|)
    ensures forall t: TaskId :: t in wq[q] <==> t < |place| && place[t] == Wait(q)
  {
    assert IsWaitQueue(wq[q], q, place);
    forall i | 0 <= i < |wq[q]|
      ensures wq[q][i] < |place|
    {
      assert wq[q][i] in wq[q];
    }
  }

  lemma WaitGains(wq: seq<seq<TaskId>>, place: seq<Place>, t: TaskId, q: nat, s: seq<TaskId>)
    requires WaitQueues(wq, place) && t < |place| && !place[t].Wait? && q < |wq|
    requires Distinct(s) && forall x: TaskId :: x in s <==> x in wq[q] || x == t
    ensures WaitQueues(wq[q := s], place[t := Wait(q)])
  {
    var wq', place' := wq[q := s], place[t := Wait(q)];
    forall r | 0 <= r < |wq|
      ensures IsWaitQueue(wq'[r], r, place')
    {
      assert IsWaitQueue(wq[r], r, place);
    }
  }

  lemma WaitLoses(wq: seq<seq<TaskId>>, place: seq<Place>, t: TaskId, q: nat, s: seq<TaskId>, pl: Place)
    requires WaitQueues(wq, place) && t < |place| && place[t] == Wait(q) && q < |wq| && !pl.Wait?
    requires Distinct(s) && forall x: TaskId :: x in s <==> x in wq[q] && x != t
    ensures WaitQueues(wq[q := s], place[t := pl])
  {
    var wq', place' := wq[q := s], place[t := pl];
    forall r | 0 <= r < |wq|
      ensures IsWaitQueue(wq'[r], r, place')
    {
      assert IsWaitQueue(wq[r], r, place);
    }
  }

  lemma WaitIgnores(wq: seq<seq<TaskId>>, place: seq<Place>, t: TaskId, pl: Place)
    requires WaitQueues(wq, place) && t < |place| && !place[t].Wait? && !pl.Wait?
    ensures WaitQueues(wq, place[t := pl])
  {
    forall r | 0 <= r < |wq|
      ensures IsWaitQueue(wq[r], r, place[t := pl])
    {
      assert IsWaitQueue(wq[r], r, place);
    }
  }

  lemma ByPriorityIgnores(s: seq<TaskId>, pri: seq<nat>, t: TaskId, newpri: nat)
    requires ByPriority(s, pri) && t !in s && t < |pri|
    ensures ByPriority(s, pri[t := newpri])
  {
  }

  lemma WaitOrderIgnores(wq: seq<seq<TaskId>>, place: seq<Place>, tpri: seq<bool>, pri: seq<nat>, t: TaskId, newpri: nat)
    requires WaitQueues(wq, place) && WaitOrder(wq, tpri, pri) && t < |place| == |pri|
    requires place[t].Wait? && place[t].q < |wq| ==> !tpri[place[t].q]
    ensures WaitOrder(wq, tpri, pri[t := newpri])
  {
    forall q: nat | q < |wq| && tpri[q]
      ensures ByPriority(wq[q], pri[t := newpri])
    {
      assert IsWaitQueue(wq[q], q, place);
      ByPriorityIgnores(wq[q], pri, t, newpri);
    }
  }

  /** Every priority-ordered wait queue is in order. */
  ghost predicate WaitOrder(wq: seq<seq<TaskId>>, tpri: seq<bool>, pri: seq<nat>) {
    |tpri| == |wq| && forall q: nat :: q < |wq| && tpri[q] ==> ByPriority(wq[q], pri)
  }

  lemma WaitOrderUpdate(wq: seq<seq<TaskId>>, tpri: seq<bool>, pri: seq<nat>, q: nat, s: seq<TaskId>)
    requires WaitOrder(wq, tpri, pri) && q < |wq| && (tpri[q] ==> ByPriority(s, pri))
    ensures WaitOrder(wq[q := s], tpri, pri)
  {
  }

  /** What a wait queue becomes when a task joins it. */
  function Joined(s: seq<TaskId>, t: TaskId, pri: seq<nat>, byPriority: bool): seq<TaskId>
    requires t < |pri| && InRange(s, |pri|)
  {
    if byPriority then InsertTpri(s, t, pri) else s + [t]
  }

  /** At the tail, or at the place for its priority. */
  lemma JoinedIs(s: seq<TaskId>, t: TaskId, pri: seq<nat>, byPriority: bool)
    requires t < |pri| && InRange(s, |pri|)
    ensures !byPriority ==> Joined(s, t, pri, byPriority) == s + [t]
    ensures byPriority ==> Joined(s, t, pri, byPriority) == InsertAt(s, PriorityPlace(PrioritiesOf(s, pri), pri[t]), t)
  {
    InsertTpriPlace(s, t, pri);
  }

  /** Two tasks that join a queue without priorities one after the other stand in it in this order, behind
      all that were in it. */
  lemma JoinedInTurn(s: seq<TaskId>, t: TaskId, u: TaskId, pri: seq<nat>)
    requires t < |pri| && u < |pri| && InRange(s, |pri|)
    ensures InRange(s + [t], |pri|) && Joined(s, t, pri, false) == s + [t]
    ensures Joined(s + [t], u, pri, false) == s + [t, u]
  {
  }

  lemma JoinedHolds(s: seq<TaskId>, t: TaskId, pri: seq<nat>, byPriority: bool)
    requires t < |pri| && t !in s && Distinct(s) && InRange(s, |pri|)
    ensures Distinct(Joined(s, t, pri, byPriority))
    ensures forall x: TaskId :: x in Joined(s, t, pri, byPriority) <==> x in s || x == t
    ensures byPriority && ByPriority(s, pri) ==> ByPriority(Joined(s, t, pri, byPriority), pri)
  {
    InsertTpriHolds(s, t, pri);
    DistinctSnoc(s, t);
    if byPriority && ByPriority(s, pri) {
      InsertTpriByPriority(s, t, pri);
    }
  }

  /** The wait queues after a waiting task has changed its priority: in a priority-ordered queue it
      moves to its new place. */
  lemma WaitMoves(wq: seq<seq<TaskId>>, place: seq<Place>, tpri: seq<bool>, pri: seq<nat>, t: TaskId, q: nat, newpri: nat)
    requires WaitQueues(wq, place) && WaitOrder(wq, tpri, pri) && |place| == |pri|
    requires t < |place| && place[t] == Wait(q) && q < |wq|
    requires tpri[q]
    ensures var pri' := pri[t := newpri]; var s := Without(wq[q], t);
            && t in wq[q] && t !in s && Distinct(s) && InRange(s, |pri'|)
            && WaitQueues(wq[q := InsertTpri(s, t, pri')], place)
            && WaitOrder(wq[q := InsertTpri(s, t, pri')], tpri, pri')
  {
    var pri' := pri[t := newpri];
    var s := Without(wq[q], t);
    assert IsWaitQueue(wq[q], q, place);
    WithoutHolds(wq[q], t);
    WithoutByPriority(wq[q], t, pri);
    ByPriorityIgnores(s, pri, t, newpri);
    InsertTpriHolds(s, t, pri');
    InsertTpriByPriority(s, t, pri');
    var r := InsertTpri(s, t, pri');
    WaitLoses(wq, place, t, q, s, Nowhere);
    WaitGains(wq[q := s], place[t := Nowhere], t, q, r);
    assert wq[q := s][q := r] == wq[q := r] && place[t := Nowhere][t := Wait(q)] == place;
    forall i: nat | i < |wq| && tpri[i]
      ensures ByPriority(wq[q := r][i], pri')
    {
      if i != q {
        assert IsWaitQueue(wq[i], i, place);
        ByPriorityIgnores(wq[i], pri, t, newpri);
      }
    }
  }

  // ---------- Mutexes ----------

  /** Following the previous-mutex pointers from first lists exactly the mutexes of h. */
  ghost predicate Chain(first: Option<MtxId>, h: seq<MtxId>, mtx: seq<Mtxcb>)
    decreases h
  {
    if h == [] then first == None
    else first == Some(h[0]) && h[0] < |mtx| && Chain(mtx[h[0]].prev, h[1..], mtx)
  }

  /** The previous-mutex pointer of a mutex that is not in a chain does not matter to it. */
  lemma {:induction false} ChainIgnores(first: Option<MtxId>, h: seq<MtxId>, mtx: seq<Mtxcb>, mtx': seq<Mtxcb>)
    requires Chain(first, h, mtx) && |mtx'| == |mtx|
    requires forall m: MtxId :: m in h && m < |mtx| ==> mtx'[m].prev == mtx[m].prev
    ensures Chain(first, h, mtx')
    decreases h
  {
    if h != [] {
      ChainIgnores(mtx[h[0]].prev, h[1..], mtx, mtx');
    }
  }

  /** The priority a task must have: the most urgent of its base priority and the ceilings of the
      mutexes it holds. */
  function CeilPri(bpri: nat, h: seq<MtxId>, ceil: seq<Option<nat>>): nat
    decreases h
  {
    if h == [] then bpri
    else
      var rest := CeilPri(bpri, h[1..], ceil);
      if h[0] < |ceil| && ceil[h[0]].Some? && ceil[h[0]].value < rest then ceil[h[0]].value else rest
  }

  lemma {:induction false} CeilPriIsLeast(bpri: nat, h: seq<MtxId>, ceil: seq<Option<nat>>)
    ensures CeilPri(bpri, h, ceil) <= bpri
    ensures forall m: MtxId :: m in h && m < |ceil| && ceil[m].Some? ==> CeilPri(bpri, h, ceil) <= ceil[m].value
    ensures CeilPri(bpri, h, ceil) == bpri
      || exists m: MtxId :: m in h && m < |ceil| && ceil[m].Some? && CeilPri(bpri, h, ceil) == ceil[m].value
    decreases h
  {
    if h != [] {
      CeilPriIsLeast(bpri, h[1..], ceil);
      assert forall m: MtxId :: m in h <==> m == h[0] || m in h[1..];
    }
  }

  /** A number with the three properties is the ceiling priority. */
  lemma CeilPriUnique(bpri: nat, h: seq<MtxId>, ceil: seq<Option<nat>>, p: nat)
    requires p <= bpri && forall m: MtxId :: m in h && m < |ceil| && ceil[m].Some? ==> p <= ceil[m].value
    requires p == bpri || exists m: MtxId :: m in h && m < |ceil| && ceil[m].Some? && p == ceil[m].value
    ensures CeilPri(bpri, h, ceil) == p
  {
    CeilPriIsLeast(bpri, h, ceil);
  }

  /** No held ceiling is below the base priority. */
  ghost predicate CeilingsOk(bpri: nat, h: seq<MtxId>, ceil: seq<Option<nat>>) {
    forall m: MtxId :: m in h && m < |ceil| && ceil[m].Some? ==> ceil[m].value <= bpri
  }

  // ---------- One task ----------

  function PlaceOf(s: Tstat): Place {
    match s
    case Runnable => Ready
    case Waiting(Object(q), _) => Wait(q)
    case _ => Nowhere
  }

  /** A task's links, time event, results and flags agree with its state. */
  ghost predicate StateOk(x: Tcb, place: Place, timed: bool, h: seq<MtxId>, ipri: nat, ceil: seq<Option<nat>>) {
    && place == PlaceOf(x.tstat)
    && (timed <==> x.tstat.Waiting? && x.winfo == Event(true))
    && (x.tstat.Waiting? ==> x.winfo.Event?)
    && (x.tstat.Waiting? && x.tstat.cause.Delay? ==> x.winfo == Event(true))
    && (x.raster ==> x.tstat.Runnable?)
    && (x.tstat.Waiting? && x.tstat.cause.Object? ==> WaitOk(x, ceil))
    && (x.tstat.Dormant? ==> DormantOk(x, h, ipri))
  }

  /** A task waiting for a ceiling mutex could hold it. */
  ghost predicate WaitOk(x: Tcb, ceil: seq<Option<nat>>)
    requires x.tstat.Waiting? && x.tstat.cause.Object?
  {
    var q := x.tstat.cause.q;
    q < |ceil| && ceil[q].Some? ==> ceil[q].value <= x.bpri
  }

  ghost predicate DormantOk(x: Tcb, h: seq<MtxId>, ipri: nat) {
    h == [] && x.bpri == ipri && !x.actque && !x.wupque && !x.raster && x.enater
  }

  lemma NotWaiting(x: Tcb, place: Place, h: seq<MtxId>, ipri: nat, ceil: seq<Option<nat>>)
    requires place == PlaceOf(x.tstat) && (x.tstat.Runnable? || (x.tstat.Suspended? && !x.raster))
    ensures StateOk(x, place, false, h, ipri, ceil)
  {
  }

  /** A task's priority agrees with its base priority and the mutexes it holds. */
  ghost predicate PriorityOk(bpri: nat, pri: nat, h: seq<MtxId>, ceil: seq<Option<nat>>) {
    CeilingsOk(bpri, h, ceil) && pri == CeilPri(bpri, h, ceil)
  }

  /** All tasks but those of out are in the place that their state says. */
  ghost predicate StatesOk(tcb: seq<Tcb>, place: seq<Place>, timers: set<TaskId>, held: seq<seq<MtxId>>,
                           ipri: seq<nat>, ceil: seq<Option<nat>>, out: set<TaskId>) {
    && |tcb| == |place| == |held| == |ipri|
    && (forall t: TaskId :: t in timers ==> t < |tcb|)
    && forall t: TaskId :: t < |tcb| && t !in out ==> StateOk(tcb[t], place[t], t in timers, held[t], ipri[t], ceil)
  }

  ghost predicate PrioritiesOk(tcb: seq<Tcb>, pri: seq<nat>, held: seq<seq<MtxId>>, ceil: seq<Option<nat>>, out: set<TaskId>) {
    && |tcb| == |pri| == |held|
    && (forall t: TaskId :: t < |tcb| ==> tcb[t].bpri < TNUM_TPRI)
    && forall t: TaskId :: t < |tcb| && t !in out ==> PriorityOk(tcb[t].bpri, pri[t], held[t], ceil)
  }

  /** A change of one task. */
  lemma StatesUpdate(tcb: seq<Tcb>, tcb': seq<Tcb>, place: seq<Place>, place': seq<Place>, timers: set<TaskId>, timers': set<TaskId>,
                     held: seq<seq<MtxId>>, ipri: seq<nat>, ceil: seq<Option<nat>>, out: set<TaskId>, out': set<TaskId>, t: TaskId)
    requires StatesOk(tcb, place, timers, held, ipri, ceil, out) && t < |tcb| == |tcb'| && t < |place'|
    requires tcb' == tcb[t := tcb'[t]] && place' == place[t := place'[t]] && timers' - {t} == timers - {t}
    requires out <= out' + {t}
    requires t !in out' ==> StateOk(tcb'[t], place'[t], t in timers', held[t], ipri[t], ceil)
    ensures StatesOk(tcb', place', timers', held, ipri, ceil, out')
  {
    hide StateOk;
    forall u: TaskId | u in timers'
      ensures u < |tcb|
    {
      assert u != t ==> u in timers' - {t};
    }
    forall u: TaskId | u < |tcb| && u !in out'
      ensures StateOk(tcb'[u], place'[u], u in timers', held[u], ipri[u], ceil)
    {
      if u != t {
        assert u in timers' <==> u in timers' - {t};
        assert u in timers <==> u in timers - {t};
      }
    }
  }

  /** A task that is not dormant gets a mutex or loses one. */
  lemma StatesHeld(tcb: seq<Tcb>, place: seq<Place>, timers: set<TaskId>, held: seq<seq<MtxId>>,
                   ipri: seq<nat>, ceil: seq<Option<nat>>, t: TaskId, h: seq<MtxId>)
    requires StatesOk(tcb, place, timers, held, ipri, ceil, {}) && t < |tcb| && !tcb[t].tstat.Dormant?
    ensures StatesOk(tcb, place, timers, held[t := h], ipri, ceil, {})
  {
  }

  lemma PrioritiesUpdate(tcb: seq<Tcb>, tcb': seq<Tcb>, pri: seq<nat>, pri': seq<nat>, held: seq<seq<MtxId>>, held': seq<seq<MtxId>>,
                         ceil: seq<Option<nat>>, out: set<TaskId>, out': set<TaskId>, t: TaskId)
    requires PrioritiesOk(tcb, pri, held, ceil, out) && t < |tcb| == |tcb'| == |pri'| == |held'|
    requires tcb' == tcb[t := tcb'[t]] && pri' == pri[t := pri'[t]] && held' == held[t := held'[t]]
    requires tcb'[t].bpri < TNUM_TPRI && out <= out' + {t}
    requires t !in out' ==> PriorityOk(tcb'[t].bpri, pri'[t], held'[t], ceil)
    ensures PrioritiesOk(tcb', pri', held', ceil, out')
  {
    hide PriorityOk;
  }

  /** Each task's chain of mutexes lists exactly the mutexes whose owner it is, once each. A loose
      mutex is just being taken out of a chain. */
  ghost predicate HoldsExactly(t: TaskId, last: Option<MtxId>, h: seq<MtxId>, mtx: seq<Mtxcb>, loose: set<MtxId>) {
    && Chain(last, h, mtx)
    && Distinct(h)
    && forall m: MtxId :: m in h <==> m < |mtx| && m !in loose && mtx[m].loctsk == Some(t)
  }

  ghost predicate MutexesOk(lastmtx: seq<Option<MtxId>>, held: seq<seq<MtxId>>, mtx: seq<Mtxcb>, loose: set<MtxId>) {
    && |lastmtx| == |held|
    && (forall m: MtxId :: m < |mtx| && mtx[m].loctsk.Some? ==> mtx[m].loctsk.value < |held|)
    && forall t: TaskId :: t < |held| ==> HoldsExactly(t, lastmtx[t], held[t], mtx, loose)
  }

  /** A mutex for which tasks wait is held, and not by one of them. */
  ghost predicate WaitersOk(wq: seq<seq<TaskId>>, mtx: seq<Mtxcb>) {
    && |mtx| <= |wq|
    && forall m: MtxId :: m < |mtx| && wq[m] != [] ==> mtx[m].loctsk.Some? && mtx[m].loctsk.value !in wq[m]
  }

  /** Nobody waits for a free mutex, and one that is locked now may have any owner. */
  lemma WaitersAcquire(wq: seq<seq<TaskId>>, mtx: seq<Mtxcb>, m: MtxId, x: Mtxcb)
    requires WaitersOk(wq, mtx) && m < |mtx| && mtx[m].loctsk == None
    ensures WaitersOk(wq, mtx[m := x])
  {
  }

  /** Tasks leave a wait queue: the mutexes that are waited for stay held. */
  lemma WaitersLeave(wq: seq<seq<TaskId>>, mtx: seq<Mtxcb>, q: nat, s: seq<TaskId>)
    requires WaitersOk(wq, mtx) && q < |wq| && forall x: TaskId :: x in s ==> x in wq[q]
    ensures WaitersOk(wq[q := s], mtx)
  {
    forall m: MtxId | m < |mtx| && wq[q := s][m] != []
      ensures mtx[m].loctsk.Some? && mtx[m].loctsk.value !in wq[q := s][m]
    {
      if m == q {
        assert s[0] in s;
      }
    }
  }

  /** The tasks of s, and no others, have ended their waits with the given result. */
  ghost predicate Released(tcb: seq<Tcb>, tcb': seq<Tcb>, s: seq<TaskId>, ercd: Error) {
    && |tcb| == |tcb'|
    && forall t: TaskId :: t < |tcb| ==>
         if t in s then
           tcb[t].tstat.Waiting? && tcb'[t] == EndedWait(tcb[t], ercd)
         else tcb'[t] == tcb[t]
  }

  /** A second queue is emptied after a first one. */
  lemma ReleasedTwice(tcb0: seq<Tcb>, tcb1: seq<Tcb>, tcb2: seq<Tcb>, s: seq<TaskId>, r: seq<TaskId>, ercd: Error)
    requires Released(tcb0, tcb1, s, ercd) && Released(tcb1, tcb2, r, ercd)
    ensures Released(tcb0, tcb2, s + r, ercd)
  {
  }

  lemma ReleasedAnother(tcb0: seq<Tcb>, tcb1: seq<Tcb>, s: seq<TaskId>, t: TaskId, ercd: Error)
    requires Released(tcb0, tcb1, s, ercd) && t < |tcb1| && tcb1[t].tstat.Waiting?
    ensures Released(tcb0, tcb1[t := EndedWait(tcb1[t], ercd)], s + [t], ercd)
  {
  }

  /** The tasks of a queue that are in a set, and the others, in their order. */
  function Taken(s: seq<TaskId>, chosen: set<TaskId>): (r: seq<TaskId>)
    ensures forall t :: t in r <==> t in s && t in chosen
  {
    if s == [] then [] else
    Taken(s[..|s| - 1], chosen) + if s[|s| - 1] in chosen then [s[|s| - 1]] else []
  }

  function Kept(s: seq<TaskId>, chosen: set<TaskId>): (r: seq<TaskId>)
    ensures forall t :: t in r <==> t in s && t !in chosen
  {
    if s == [] then [] else
    Kept(s[..|s| - 1], chosen) + if s[|s| - 1] in chosen then [] else [s[|s| - 1]]
  }

  lemma KeptNone(s: seq<TaskId>, chosen: set<TaskId>)
    ensures Kept(s[..0], chosen) + s[0..] == s && Taken(s[..0], chosen) == []
  {
    assert s[..0] == [];
  }

  lemma {:induction false} WithoutMiddle(k: seq<TaskId>, t: TaskId, r: seq<TaskId>)
    requires t !in k
    ensures Without(k + [t] + r, t) == k + r
  {
    if k == [] {
      assert k + [t] + r == [t] + r && ([t] + r)[1..] == r && k + r == r;
    } else {
      WithoutMiddle(k[1..], t, r);
      assert (k + [t] + r)[1..] == k[1..] + [t] + r;
      assert k + r == [k[0]] + (k[1..] + r);
    }
  }

  /** One more task of the queue is taken out or kept. */
  lemma KeptOne(s: seq<TaskId>, i: nat, chosen: set<TaskId>)
    requires Distinct(s) && i < |s|
    ensures Taken(s[..i + 1], chosen) == if s[i] in chosen then Taken(s[..i], chosen) + [s[i]] else Taken(s[..i], chosen)
    ensures var q := Kept(s[..i], chosen) + s[i..];
            && s[i] in q
            && Kept(s[..i + 1], chosen) + s[i + 1..] == if s[i] in chosen then Without(q, s[i]) else q
  {
    hide Kept, Taken, Without;
    PartsStep(s, i, chosen);
    var k := Kept(s[..i], chosen);
    assert s[i..] == [s[i]] + s[i + 1..];
    if s[i] in chosen {
      WithoutMiddle(k, s[i], s[i + 1..]);
      assert k + s[i..] == k + [s[i]] + s[i + 1..];
    } else {
      assert k + [s[i]] + s[i + 1..] == k + s[i..];
    }
  }

  lemma PartsStep(s: seq<TaskId>, i: nat, chosen: set<TaskId>)
    requires i < |s|
    ensures Taken(s[..i + 1], chosen) == if s[i] in chosen then Taken(s[..i], chosen) + [s[i]] else Taken(s[..i], chosen)
    ensures Kept(s[..i + 1], chosen) == if s[i] in chosen then Kept(s[..i], chosen) else Kept(s[..i], chosen) + [s[i]]
  {
    var p := s[..i + 1];
    assert p[..|p| - 1] == s[..i] && p[|p| - 1] == s[i];
  }

  /** A task joins a wait queue; for a mutex, one that another task holds. */
  lemma WaitersJoin(wq: seq<seq<TaskId>>, mtx: seq<Mtxcb>, q: nat, s: seq<TaskId>, t: TaskId)
    requires WaitersOk(wq, mtx) && q < |wq| && forall x: TaskId :: x in s ==> x in wq[q] || x == t
    requires q < |mtx| ==> mtx[q].loctsk.Some? && mtx[q].loctsk != Some(t)
    ensures WaitersOk(wq[q := s], mtx)
  {
  }

  function EndedWait(x: Tcb, ercd: Error): Tcb
    requires x.tstat.Waiting?
  {
    x.(tstat := if x.tstat.suspended then Suspended else Runnable, winfo := Wercd(ercd))
  }

  lemma ReleasedNone(tcb: seq<Tcb>, ercd: Error)
    ensures Released(tcb, tcb, [], ercd)
  {
  }

  lemma ReleasedOneMore(tcb: seq<Tcb>, tcb': seq<Tcb>, s: seq<TaskId>, k: nat, ercd: Error)
    requires Distinct(s) && k < |s| && Released(tcb, tcb', s[..k], ercd)
    requires s[k] < |tcb| == |tcb'| && tcb'[s[k]].tstat.Waiting?
    ensures Released(tcb, tcb'[s[k] := EndedWait(tcb'[s[k]], ercd)], s[..k + 1], ercd)
  {
    assert s[k] !in s[..k];
    assert s[..k + 1] == s[..k] + [s[k]];
  }

  // ---------- Mutexes that change hands ----------

  /** A task's last mutex is taken off its chain. */
  lemma MutexPop(lastmtx: seq<Option<MtxId>>, held: seq<seq<MtxId>>, mtx: seq<Mtxcb>, t: TaskId)
    requires MutexesOk(lastmtx, held, mtx, {}) && t < |held| && lastmtx[t].Some?
    ensures held[t] != [] && lastmtx[t] == Some(held[t][0]) && held[t][0] < |mtx| && mtx[held[t][0]].loctsk == Some(t)
    ensures MutexesOk(lastmtx[t := mtx[held[t][0]].prev], held[t := held[t][1..]], mtx, {held[t][0]})
  {
    assert HoldsExactly(t, lastmtx[t], held[t], mtx, {});
    var m := held[t][0];
    assert m in held[t];
    var lastmtx', held' := lastmtx[t := mtx[m].prev], held[t := held[t][1..]];
    forall x: TaskId | x < |held'|
      ensures HoldsExactly(x, lastmtx'[x], held'[x], mtx, {m})
    {
      assert HoldsExactly(x, lastmtx[x], held[x], mtx, {});
      if x == t {
        DistinctCons(held[t]);
        assert forall y: MtxId :: y in held[t] <==> y == m || y in held[t][1..];
      }
    }
  }

  /** A mutex that is in no chain is put on top of a task's chain. */
  lemma MutexPush(lastmtx: seq<Option<MtxId>>, held: seq<seq<MtxId>>, mtx: seq<Mtxcb>, t: TaskId, m: MtxId, loose: set<MtxId>)
    requires MutexesOk(lastmtx, held, mtx, loose) && t < |held| && m < |mtx|
    requires m in loose || mtx[m].loctsk == None
    ensures MutexesOk(lastmtx[t := Some(m)], held[t := [m] + held[t]], mtx[m := Mtxcb(Some(t), lastmtx[t])], loose - {m})
  {
    var lastmtx', held', mtx' := lastmtx[t := Some(m)], held[t := [m] + held[t]], mtx[m := Mtxcb(Some(t), lastmtx[t])];
    forall x: TaskId | x < |held'|
      ensures HoldsExactly(x, lastmtx'[x], held'[x], mtx', loose - {m})
    {
      assert HoldsExactly(x, lastmtx[x], held[x], mtx, loose);
      ChainIgnores(lastmtx[x], held[x], mtx, mtx');
      if x == t {
        DistinctCons(held'[t]);
        assert held'[t][1..] == held[t];
        assert forall y: MtxId :: y in held'[t] <==> y == m || y in held[t];
      }
    }
  }

  /** A mutex that is in no chain becomes free. */
  lemma MutexFree(lastmtx: seq<Option<MtxId>>, held: seq<seq<MtxId>>, mtx: seq<Mtxcb>, m: MtxId, loose: set<MtxId>)
    requires MutexesOk(lastmtx, held, mtx, loose) && m < |mtx| && m in loose
    ensures MutexesOk(lastmtx, held, mtx[m := mtx[m].(loctsk := None)], loose - {m})
  {
    var mtx' := mtx[m := mtx[m].(loctsk := None)];
    forall x: TaskId | x < |held|
      ensures HoldsExactly(x, lastmtx[x], held[x], mtx', loose - {m})
    {
      assert HoldsExactly(x, lastmtx[x], held[x], mtx, loose);
      ChainIgnores(lastmtx[x], held[x], mtx, mtx');
    }
  }

  /** A chain element is skipped by its predecessor. */
  lemma {:induction false} ChainSkip(first: Option<MtxId>, h: seq<MtxId>, mtx: seq<Mtxcb>, i: nat)
    requires Chain(first, h, mtx) && Distinct(h) && i + 1 < |h| && h[i] < |mtx| && h[i + 1] < |mtx|
    ensures Chain(first, h[..i + 1] + h[i + 2..], mtx[h[i] := mtx[h[i]].(prev := mtx[h[i + 1]].prev)])
    decreases h
  {
    hide Distinct;
    var mtx' := mtx[h[i] := mtx[h[i]].(prev := mtx[h[i + 1]].prev)];
    var r := h[..i + 1] + h[i + 2..];
    DistinctCons(h);
    if i == 0 {
      DistinctCons(h[1..]);
      assert r == [h[0]] + h[2..];
      assert h[1..][1..] == h[2..];
      assert forall y: MtxId :: y in h[2..] ==> y in h[1..];
      ChainIgnores(mtx[h[1]].prev, h[2..], mtx, mtx');
    } else {
      ChainSkip(mtx[h[0]].prev, h[1..], mtx, i - 1);
      assert r[1..] == h[1..][..i] + h[1..][i + 1..];
      assert h[0] != h[i] by {
        assert h[i] == h[1..][i - 1];
      }
    }
  }

  lemma DistinctRemove<T>(h: seq<T>, i: nat)
    requires Distinct(h) && i < |h|
    ensures Distinct(h[..i] + h[i + 1..])
    ensures forall y :: y in h[..i] + h[i + 1..] <==> y in h && y != h[i]
  {
    var r := h[..i] + h[i + 1..];
    forall y | y in h && y != h[i]
      ensures y in r
    {
      var j :| 0 <= j < |h| && h[j] == y;
      assert r[if j < i then j else j - 1] == y;
    }
  }

  /** A mutex is taken out of a chain, at its top or by its predecessor. */
  lemma MutexUnlink(lastmtx: seq<Option<MtxId>>, held: seq<seq<MtxId>>, mtx: seq<Mtxcb>, t: TaskId, i: nat)
    requires MutexesOk(lastmtx, held, mtx, {}) && t < |held| && i < |held[t]| && held[t][i] < |mtx|
    requires i > 0 ==> held[t][i - 1] < |mtx|
    ensures var m := held[t][i];
            MutexesOk(if i == 0 then lastmtx[t := mtx[m].prev] else lastmtx, held[t := held[t][..i] + held[t][i + 1..]],
                      if i == 0 then mtx else mtx[held[t][i - 1] := mtx[held[t][i - 1]].(prev := mtx[m].prev)], {m})
  {
    var m := held[t][i];
    var lastmtx' := if i == 0 then lastmtx[t := mtx[m].prev] else lastmtx;
    var held' := held[t := held[t][..i] + held[t][i + 1..]];
    var mtx' := if i == 0 then mtx else mtx[held[t][i - 1] := mtx[held[t][i - 1]].(prev := mtx[m].prev)];
    assert HoldsExactly(t, lastmtx[t], held[t], mtx, {});
    assert m in held[t];
    DistinctRemove(held[t], i);
    if i > 0 {
      assert held[t][i - 1] in held[t];
      ChainSkip(lastmtx[t], held[t], mtx, i - 1);
    } else {
      assert held'[t] == held[t][1..];
    }
    forall x: TaskId | x < |held'|
      ensures HoldsExactly(x, lastmtx'[x], held'[x], mtx', {m})
    {
      assert HoldsExactly(x, lastmtx[x], held[x], mtx, {});
      if x != t {
        ChainIgnores(lastmtx[x], held[x], mtx, mtx');
      }
    }
  }

  lemma ChainNext(first: Option<MtxId>, h: seq<MtxId>, mtx: seq<Mtxcb>, i: nat)
    requires Chain(first, h, mtx) && i < |h|
    ensures h[i] < |mtx| && mtx[h[i]].prev == if i + 1 < |h| then Some(h[i + 1]) else None
    decreases h
  {
    if i > 0 {
      ChainNext(mtx[h[0]].prev, h[1..], mtx, i - 1);
    }
  }

  // ---------- Ceilings ----------

  /** Whether mutex m has a ceiling. */
  predicate HasCeiling(m: MtxId, ceil: seq<Option<nat>>) {
    m < |ceil| && ceil[m].Some?
  }

  /** The priority of a task that holds the mutexes of h and also m. */
  function WithCeiling(p: nat, m: MtxId, ceil: seq<Option<nat>>): nat {
    if HasCeiling(m, ceil) && ceil[m].value < p then ceil[m].value else p
  }

  /** The order in which mutexes are held does not matter to the priority. */
  lemma CeilPriRemove(bpri: nat, h: seq<MtxId>, ceil: seq<Option<nat>>, i: nat)
    requires i < |h|
    ensures CeilPri(bpri, h, ceil) == WithCeiling(CeilPri(bpri, h[..i] + h[i + 1..], ceil), h[i], ceil)
  {
    hide CeilPri;
    var r := h[..i] + h[i + 1..];
    RemoveMembers(h, i);
    CeilPriIsLeast(bpri, r, ceil);
    CeilPriUnique(bpri, h, ceil, WithCeiling(CeilPri(bpri, r, ceil), h[i], ceil));
  }

  lemma RemoveMembers(h: seq<MtxId>, i: nat)
    requires i < |h|
    ensures forall m: MtxId :: m in h <==> m == h[i] || m in h[..i] + h[i + 1..]
  {
    assert h == h[..i] + [h[i]] + h[i + 1..];
  }

  /** Without ceilings the base priority counts. */
  lemma {:induction false} NoCeilings(bpri: nat, h: seq<MtxId>, ceil: seq<Option<nat>>)
    requires forall m: MtxId :: m in h ==> !HasCeiling(m, ceil)
    ensures CeilPri(bpri, h, ceil) == bpri
    decreases h
  {
    if h != [] {
      assert h[0] in h;
      NoCeilings(bpri, h[1..], ceil);
    }
  }

  /** With a ceiling, and every ceiling at or above the base priority, the base does not count. */
  lemma CeilingsCount(b1: nat, b2: nat, h: seq<MtxId>, ceil: seq<Option<nat>>, m: MtxId)
    requires CeilingsOk(b1, h, ceil) && CeilingsOk(b2, h, ceil) && m in h && HasCeiling(m, ceil)
    ensures CeilPri(b1, h, ceil) == CeilPri(b2, h, ceil)
  {
    CeilPriIsLeast(b1, h, ceil);
    CeilPriIsLeast(b2, h, ceil);
  }

  // ---------- Changes of priority ----------

  /** What a change of the priority of task t does to the wait queues: in a priority-ordered queue
      it goes behind the tasks that are at least as urgent as it now is. */
  ghost predicate Requeued(wq: seq<seq<TaskId>>, wq': seq<seq<TaskId>>, tpri: seq<bool>, pri': seq<nat>, pl: Place, t: TaskId) {
    if pl.Wait? && pl.q < |wq| == |tpri| && tpri[pl.q] then
      var s := Without(wq[pl.q], t);
      t < |pri'| && InRange(s, |pri'|) && wq' == wq[pl.q := InsertTpri(s, t, pri')]
    else wq' == wq
  }

  /** What it does to the ready queues: a task that can run goes to the front or to the tail of its
      new queue. */
  ghost predicate Reordered(sched: seq<Schedcb>, sched': seq<Schedcb>, unit: seq<nat>, s: Tstat, t: TaskId, oldpri: nat, newpri: nat, front: bool) {
    if s.Runnable? then t < |unit| && MovedQueues(sched, sched', unit[t], t, oldpri, newpri, front) else sched' == sched
  }

  lemma WaitersRequeued(wq: seq<seq<TaskId>>, wq': seq<seq<TaskId>>, place: seq<Place>, tpri: seq<bool>, pri': seq<nat>,
                        t: TaskId, mtx: seq<Mtxcb>)
    requires WaitersOk(wq, mtx) && WaitQueues(wq, place) && t < |place|
    requires Requeued(wq, wq', tpri, pri', place[t], t)
    ensures WaitersOk(wq', mtx)
  {
    hide Distinct, IsWaitQueue, WaitersOk;
    if place[t].Wait? && place[t].q < |wq| == |tpri| && tpri[place[t].q] {
      var q := place[t].q;
      WaitFacts(wq, place, q);
      var s := Without(wq[q], t);
      WithoutHolds(wq[q], t);
      InsertTpriHolds(s, t, pri');
      WaitersLeave(wq, mtx, q, InsertTpri(s, t, pri'));
    }
  }

  /** The selected task stays selected when it becomes more urgent. */
  lemma SelectRaised(sched: seq<Schedcb>, sched': seq<Schedcb>, place: seq<Place>, pri: seq<nat>, unit: seq<nat>,
                     t: TaskId, newpri: nat, front: bool, twd: nat, idle: nat)
    requires 0 < |sched| == |sched'| && twd < |sched| && idle < |sched| && Caches(sched, |pri|) && Caches(sched', |pri|)
    requires ReadyQueues(sched, place, pri, unit) && |place| == |pri| == |unit| && t < |pri| && unit[t] < |sched|
    requires pri[t] < TNUM_TPRI && newpri < pri[t] && place[t] == Ready
    requires MovedQueues(sched, sched', unit[t], t, pri[t], newpri, front)
    requires Select(sched, pri, twd, idle) == Some(t)
    ensures Select(sched', pri[t := newpri], twd, idle) == Some(t)
  {
    hide BitsOk, Moved, Best;
    var w := unit[t];
    forall u: nat | u < |sched| && sched[u].pred == Some(t)
      ensures u == w
    {
      assert UnitQueues(sched[u].queue, u, place, pri, unit);
      PredPriority(sched[u], u, place, pri, unit);
    }
    assert sched[w].pred == Some(t);
    QueueFacts(sched, place, pri, unit, w, pri[t]);
    assert UnitQueues(sched[w].queue, w, place, pri, unit);
    BestMoves(sched[w], w, t, pri[t], newpri, front, place, pri, unit);
    forall u: nat | u < |sched|
      ensures sched'[u].pred == sched[u].pred
    {
      assert CacheOk(sched[u]) && CacheOk(sched'[u]);
    }
  }

  /** Holding one more mutex. */
  lemma PriorityWith(bpri: nat, pri: nat, h: seq<MtxId>, ceil: seq<Option<nat>>, m: MtxId)
    requires PriorityOk(bpri, pri, h, ceil) && (HasCeiling(m, ceil) ==> ceil[m].value <= bpri)
    ensures PriorityOk(bpri, WithCeiling(pri, m, ceil), [m] + h, ceil)
  {
    assert ([m] + h)[1..] == h;
  }

  /** Holding one mutex less: the i-th of the chain. */
  lemma PriorityWithout(bpri: nat, pri: nat, h: seq<MtxId>, ceil: seq<Option<nat>>, i: nat)
    requires PriorityOk(bpri, pri, h, ceil) && i < |h|
    ensures var r := h[..i] + h[i + 1..];
            CeilingsOk(bpri, r, ceil) && pri == WithCeiling(CeilPri(bpri, r, ceil), h[i], ceil)
  {
    CeilPriRemove(bpri, h, ceil, i);
  }

  lemma CeilPriInRange(bpri: nat, h: seq<MtxId>, ceil: seq<Option<nat>>)
    requires bpri < TNUM_TPRI
    ensures CeilPri(bpri, h, ceil) < TNUM_TPRI
  {
    CeilPriIsLeast(bpri, h, ceil);
  }

  lemma WithoutHead(s: seq<TaskId>)
    requires s != []
    ensures Without(s, s[0]) == s[1..]
  {
  }

  /** A mutex passes to the first task that waits for it. */
  lemma WaitersHanded(wq: seq<seq<TaskId>>, wq': seq<seq<TaskId>>, mtx: seq<Mtxcb>, t: TaskId, m: MtxId, prev: Option<MtxId>)
    requires WaitersOk(wq, mtx) && m < |mtx| && wq[m] != [] && wq[m][0] == t && Distinct(wq[m])
    requires wq' == wq[m := wq[m][1..]]
    ensures WaitersOk(wq', mtx[m := Mtxcb(Some(t), prev)])
  {
    DistinctCons(wq[m]);
  }

  lemma SameIndex<T>(h: seq<T>, i: nat, j: nat)
    requires Distinct(h) && i < |h| && j < |h| && h[i] == h[j]
    ensures i == j
  {
  }

  lemma ChainOf(lastmtx: seq<Option<MtxId>>, held: seq<seq<MtxId>>, mtx: seq<Mtxcb>, t: TaskId)
    requires MutexesOk(lastmtx, held, mtx, {}) && t < |held|
    ensures |lastmtx| == |held| && Chain(lastmtx[t], held[t], mtx) && Distinct(held[t])
  {
    assert HoldsExactly(t, lastmtx[t], held[t], mtx, {});
  }

  lemma Neighbours<T>(h: seq<T>, i: nat)
    requires Distinct(h) && i < |h|
    ensures i > 0 ==> h[i - 1] != h[i]
  {
  }

  lemma {:induction false} WithoutAt(h: seq<MtxId>, i: nat)
    requires Distinct(h) && i < |h|
    ensures Without(h, h[i]) == h[..i] + h[i + 1..]
  {
    hide Distinct;
    DistinctCons(h);
    if i > 0 {
      assert h[1..][i - 1] == h[i];
      assert h[i] in h[1..];
      WithoutAt(h[1..], i - 1);
      assert h[..i] + h[i + 1..] == [h[0]] + (h[1..][..i - 1] + h[1..][i..]);
    }
  }

  /** A task with a ceiling keeps its priority when its base priority changes. */
  lemma SamePriority(b1: nat, b2: nat, pri: nat, h: seq<MtxId>, ceil: seq<Option<nat>>)
    requires PriorityOk(b1, pri, h, ceil) && CeilingsOk(b2, h, ceil) && exists m: MtxId :: m in h && HasCeiling(m, ceil)
    ensures PriorityOk(b2, pri, h, ceil)
  {
    var m: MtxId :| m in h && HasCeiling(m, ceil);
    CeilingsCount(b1, b2, h, ceil, m);
  }
}
