/** The scheduler, the wait machinery, the mutexes and the task services of
    hrp3_wo_tecs/kernel. Tasks, wait queues, mutexes and scheduling units are named by their
    indices; a pointer is an index that may be missing. */
module Kernel {
  import opened Common
  import opened Primap
  import opened TaskState
  import opened KernelState

  /** What the configurator fixes. A mutex has the wait queue of the same number. The tasks of act have
      the attribute TA_ACT, in the order in which tasks are initialised. */
  datatype Config = Config(
    unit: seq<nat>, ipri: seq<nat>, noactque: seq<bool>,
    tpri: seq<bool>, kind: seq<Kind>, ceil: seq<Option<nat>>, act: seq<TaskId>)

  ghost predicate ConfigOk(c: Config, nunit: nat) {
    && |c.unit| == |c.ipri| == |c.noactque|
    && |c.ceil| <= |c.tpri| == |c.kind|
    && (forall t: TaskId :: t < |c.unit| ==> c.unit[t] < nunit && c.ipri[t] < TNUM_TPRI)
    && (forall m: MtxId :: m < |c.ceil| && c.ceil[m].Some? ==> c.ceil[m].value < TNUM_TPRI)
    && (forall q: nat :: q < |c.kind| ==> c.kind[q] != SLP && c.kind[q] != DLY && (c.kind[q] == MTX <==> q < |c.ceil|))
    && (forall q: nat :: q < |c.tpri| && c.tpri[q] ==> HasControlBlock(c.kind[q]))
    && (forall t: TaskId :: t in c.act ==> t < |c.unit|) && Distinct(c.act)
  }

  /** The effect on all tasks and queues when task t stops waiting for its object: with it the first
      senders behind it, as many as find room, if the object is a message buffer. */
  ghost predicate LeftQueue(tcb: seq<Tcb>, tcb': seq<Tcb>, wq: seq<seq<TaskId>>, wq': seq<seq<TaskId>>, c: Config, t: TaskId, room: nat) {
    t < |tcb| && tcb[t].tstat.Waiting? &&
    match tcb[t].tstat.cause
    case Object(q) =>
      q < |wq| <= |c.kind| &&
      var s := Without(wq[q], t);
      var k := if c.kind[q] != SMBF then 0 else if room < |s| then room else |s|;
      t !in s && Released(tcb, tcb', s[..k], E_OK) && wq' == wq[q := s[k..]]
    case _ => tcb' == tcb && wq' == wq
  }

  /** Task t has ended its wait with the given result; its leaving the queue may have released others. */
  ghost predicate EndedAlone(tcb: seq<Tcb>, tcb': seq<Tcb>, wq: seq<seq<TaskId>>, wq': seq<seq<TaskId>>, c: Config,
                             t: TaskId, room: nat, ercd: Error) {
    && t < |tcb| == |tcb'| && tcb[t].tstat.Waiting?
    && tcb'[t] == EndedWait(tcb[t], ercd)
    && LeftQueue(tcb, tcb'[t := tcb[t]], wq, wq', c, t, room)
  }

  /** The whole effect of the termination of task t, which held the mutexes of h. First it leaves its
      queue, which may let senders behind it go; then its mutexes are passed on. */
  ghost predicate EndsVia(t: TaskId, h: seq<MtxId>, room: nat, c: Config, mtx: seq<Mtxcb>, mtx': seq<Mtxcb>,
                          wq: seq<seq<TaskId>>, wq1: seq<seq<TaskId>>, wq': seq<seq<TaskId>>,
                          tcb: seq<Tcb>, tcb1: seq<Tcb>, tcb': seq<Tcb>, pri: seq<nat>, pri': seq<nat>) {
    && t < |tcb| == |tcb'| == |pri| == |pri'| == |c.ipri|
    && (if tcb[t].tstat.Waiting? then LeftQueue(tcb, tcb1, wq, wq1, c, t, room) else tcb1 == tcb && wq1 == wq)
    && AllPassedOn(h, c.ceil, mtx, mtx', wq1, wq', tcb1, tcb'[t := tcb[t]], pri, pri'[t := pri[t]])
    && tcb'[t] == Terminated(tcb[t], c.ipri[t]) && pri'[t] == c.ipri[t]
  }

  ghost predicate Ends(t: TaskId, h: seq<MtxId>, room: nat, c: Config, mtx: seq<Mtxcb>, mtx': seq<Mtxcb>, wq: seq<seq<TaskId>>, wq': seq<seq<TaskId>>,
                       tcb: seq<Tcb>, tcb': seq<Tcb>, pri: seq<nat>, pri': seq<nat>) {
    exists tcb1, wq1 :: EndsVia(t, h, room, c, mtx, mtx', wq, wq1, wq', tcb, tcb1, tcb', pri, pri')
  }

  /** Each mutex that task t owned belongs to the first task that waited for it, or to nobody; all others
      have their owners. */
  ghost predicate MutexesLeft(t: TaskId, mtx: seq<Mtxcb>, mtx': seq<Mtxcb>, wq: seq<seq<TaskId>>) {
    && |mtx| == |mtx'| <= |wq|
    && forall m: MtxId :: m < |mtx| ==>
         mtx'[m].loctsk == if mtx[m].loctsk != Some(t) then mtx[m].loctsk else if wq[m] == [] then None else Some(wq[m][0])
  }

  lemma OwnedPassOn(t: TaskId, h: seq<MtxId>, ceil: seq<Option<nat>>, mtx: seq<Mtxcb>, mtx': seq<Mtxcb>,
                    wq: seq<seq<TaskId>>, wq1: seq<seq<TaskId>>, wq': seq<seq<TaskId>>,
                    tcb1: seq<Tcb>, tcb2: seq<Tcb>, pri: seq<nat>, pri2: seq<nat>)
    requires AllPassedOn(h, ceil, mtx, mtx', wq1, wq', tcb1, tcb2, pri, pri2)
    requires |mtx| <= |wq| == |wq1| && forall m: MtxId :: m in h && m < |wq| ==> wq1[m] == wq[m]
    requires forall m: MtxId :: m in h <==> m < |mtx| && mtx[m].loctsk == Some(t)
    ensures MutexesLeft(t, mtx, mtx', wq)
  {
  }

  lemma EndsBy(t: TaskId, h: seq<MtxId>, room: nat, c: Config, mtx: seq<Mtxcb>, mtx': seq<Mtxcb>,
               wq: seq<seq<TaskId>>, wq1: seq<seq<TaskId>>, wq': seq<seq<TaskId>>,
               tcb: seq<Tcb>, tcb1: seq<Tcb>, tcb2: seq<Tcb>, pri: seq<nat>, pri2: seq<nat>)
    requires t < |tcb| == |tcb2| == |pri| == |pri2| == |c.ipri| && tcb2[t] == tcb[t] && pri2[t] == pri[t]
    requires if tcb[t].tstat.Waiting? then LeftQueue(tcb, tcb1, wq, wq1, c, t, room) else tcb1 == tcb && wq1 == wq
    requires AllPassedOn(h, c.ceil, mtx, mtx', wq1, wq', tcb1, tcb2, pri, pri2)
    ensures Ends(t, h, room, c, mtx, mtx', wq, wq', tcb, tcb2[t := Terminated(tcb2[t], c.ipri[t])], pri, pri2[t := c.ipri[t]])
  {
    hide AllPassedOn, LeftQueue;
    var tcb', pri' := tcb2[t := Terminated(tcb2[t], c.ipri[t])], pri2[t := c.ipri[t]];
    assert tcb'[t := tcb[t]] == tcb2 && pri'[t := pri[t]] == pri2;
    assert EndsVia(t, h, room, c, mtx, mtx', wq, wq1, wq', tcb, tcb1, tcb', pri, pri');
  }

  /** Nobody but t stops being able to run when t ends, and requests for termination stay. */
  lemma EndsRuns(t: TaskId, h: seq<MtxId>, room: nat, c: Config, mtx: seq<Mtxcb>, mtx': seq<Mtxcb>, wq: seq<seq<TaskId>>, wq': seq<seq<TaskId>>,
                 tcb: seq<Tcb>, tcb': seq<Tcb>, pri: seq<nat>, pri': seq<nat>)
    requires Ends(t, h, room, c, mtx, mtx', wq, wq', tcb, tcb', pri, pri')
    ensures |tcb| == |tcb'|
    ensures forall x: TaskId :: x < |tcb| && x != t && tcb[x].tstat.Runnable? ==> tcb'[x].tstat.Runnable?
    ensures forall x: TaskId :: x < |tcb| && x != t ==> tcb'[x].raster == tcb[x].raster && tcb'[x].enater == tcb[x].enater
    ensures t < |tcb'| && !tcb'[t].raster
  {
    var tcb1: seq<Tcb>, wq1: seq<seq<TaskId>> :| EndsVia(t, h, room, c, mtx, mtx', wq, wq1, wq', tcb, tcb1, tcb', pri, pri');
    forall x: TaskId | x < |tcb| && x != t
      ensures tcb1[x].raster == tcb[x].raster && tcb1[x].enater == tcb[x].enater
      ensures tcb[x].tstat.Runnable? ==> tcb1[x].tstat.Runnable?
      ensures tcb'[x].raster == tcb1[x].raster && tcb'[x].enater == tcb1[x].enater
      ensures tcb1[x].tstat.Runnable? ==> tcb'[x].tstat.Runnable?
    {
      assert tcb'[t := tcb[t]][x] == tcb'[x];
    }
  }

  /** A requested termination waits only for the task to allow it, or for the running task to enable
      dispatching again. */
  ghost predicate RequestsPending(tcb: seq<Tcb>, runtsk: Option<TaskId>, dspflg: bool) {
    forall t: TaskId :: t < |tcb| && tcb[t].raster && tcb[t].enater ==> runtsk == Some(t) && !dspflg
  }

  /** A task may have base priority b as far as the ceilings go, of the mutexes it holds and of the
      one it waits for. */
  ghost predicate CeilingsAllow(x: Tcb, b: nat, h: seq<MtxId>, ceil: seq<Option<nat>>) {
    && CeilingsOk(b, h, ceil)
    && (x.tstat.Waiting? && x.tstat.cause.Object? ==> WaitOk(x.(bpri := b), ceil))
  }

  /** The owner of mutex m gives it up. With nobody waiting it becomes free; otherwise the first
      waiting task holds it, at no lower priority than its ceiling, and its wait is over. */
  ghost predicate PassedOn(m: MtxId, ceil: seq<Option<nat>>, mtx: seq<Mtxcb>, mtx': seq<Mtxcb>, wq: seq<seq<TaskId>>, wq': seq<seq<TaskId>>,
                           tcb: seq<Tcb>, tcb': seq<Tcb>, pri: seq<nat>, pri': seq<nat>, held: seq<seq<MtxId>>, held': seq<seq<MtxId>>) {
    && m < |mtx| == |mtx'| && m < |wq|
    && (forall n: MtxId :: n < |mtx| && n != m ==> mtx'[n] == mtx[n])
    && if wq[m] == [] then
         mtx'[m].loctsk == None && wq' == wq && tcb' == tcb && pri' == pri && held' == held
       else
         var t := wq[m][0];
         && t < |tcb| == |pri| == |held| && tcb[t].tstat.Waiting? && tcb[t].tstat.cause == Object(m)
         && mtx'[m].loctsk == Some(t) && held' == held[t := [m] + held[t]]
         && wq' == wq[m := wq[m][1..]] && tcb' == tcb[t := EndedWait(tcb[t], E_OK)]
         && pri' == pri[t := WithCeiling(pri[t], m, ceil)]
  }

  /** Task t is the one to whom a mutex of ms passes when its owner gives it up. */
  ghost predicate Heir(t: TaskId, ms: seq<MtxId>, tcb: seq<Tcb>, wq: seq<seq<TaskId>>) {
    t < |tcb| && tcb[t].tstat.Waiting? && tcb[t].tstat.cause.Object? &&
    var q := tcb[t].tstat.cause.q;
    q in ms && q < |wq| && wq[q] != [] && wq[q][0] == t
  }

  /** All mutexes of ms are passed on, each as in PassedOn, and nothing else happens to the tasks. */
  ghost predicate AllPassedOn(ms: seq<MtxId>, ceil: seq<Option<nat>>, mtx: seq<Mtxcb>, mtx': seq<Mtxcb>, wq: seq<seq<TaskId>>, wq': seq<seq<TaskId>>,
                              tcb: seq<Tcb>, tcb': seq<Tcb>, pri: seq<nat>, pri': seq<nat>) {
    && |mtx| == |mtx'| && |wq| == |wq'| && |tcb| == |tcb'| == |pri| == |pri'|
    && (forall m: MtxId :: m < |mtx| ==>
          mtx'[m].loctsk == if m !in ms || m >= |wq| then mtx[m].loctsk else if wq[m] == [] then None else Some(wq[m][0]))
    && (forall q: nat :: q < |wq| ==> wq'[q] == if q in ms && wq[q] != [] then wq[q][1..] else wq[q])
    && (forall t: TaskId :: t < |tcb| ==> tcb'[t] == if Heir(t, ms, tcb, wq) then EndedWait(tcb[t], E_OK) else tcb[t])
    && (forall t: TaskId :: t < |tcb| ==> pri'[t] == if Heir(t, ms, tcb, wq) then WithCeiling(pri[t], tcb[t].tstat.cause.q, ceil) else pri[t])
  }

  lemma NothingMoves(sched: seq<Schedcb>)
    ensures QueuesGrow(sched, sched)
  {
  }

  lemma AllPassedOnNone(ceil: seq<Option<nat>>, mtx: seq<Mtxcb>, wq: seq<seq<TaskId>>, tcb: seq<Tcb>, pri: seq<nat>)
    requires |tcb| == |pri|
    ensures AllPassedOn([], ceil, mtx, mtx, wq, wq, tcb, tcb, pri, pri)
  {
  }

  lemma AllPassedOnMore(ms: seq<MtxId>, m: MtxId, ceil: seq<Option<nat>>, mtx0: seq<Mtxcb>, mtx1: seq<Mtxcb>, mtx2: seq<Mtxcb>,
                        wq0: seq<seq<TaskId>>, wq1: seq<seq<TaskId>>, wq2: seq<seq<TaskId>>,
                        tcb0: seq<Tcb>, tcb1: seq<Tcb>, tcb2: seq<Tcb>, pri0: seq<nat>, pri1: seq<nat>, pri2: seq<nat>,
                        held1: seq<seq<MtxId>>, held2: seq<seq<MtxId>>)
    requires AllPassedOn(ms, ceil, mtx0, mtx1, wq0, wq1, tcb0, tcb1, pri0, pri1) && m !in ms
    requires PassedOn(m, ceil, mtx1, mtx2, wq1, wq2, tcb1, tcb2, pri1, pri2, held1, held2)
    ensures AllPassedOn(ms + [m], ceil, mtx0, mtx2, wq0, wq2, tcb0, tcb2, pri0, pri2)
  {
    var ms' := ms + [m];
    assert forall n: MtxId :: n in ms' <==> n in ms || n == m;
    assert wq1[m] == wq0[m];
    forall t: TaskId | t < |tcb0|
      ensures Heir(t, ms', tcb0, wq0) <==> Heir(t, ms, tcb0, wq0) || (wq0[m] != [] && t == wq0[m][0])
    {
      if wq0[m] != [] && t == wq0[m][0] {
        assert tcb1[t].tstat.Waiting? && tcb1[t].tstat.cause == Object(m);
        assert tcb0[t] == tcb1[t];
      }
    }
  }

  /** What is left of a task that has been terminated; a queued activation starts it anew. */
  function Terminated(x: Tcb, ipri: nat): Tcb {
    x.(tstat := if x.actque then Runnable else Dormant, bpri := ipri, actque := false, wupque := false, raster := false, enater := true)
  }

  /** A scheduling unit without tasks that can run. */
  function EmptySchedcb(): Schedcb {
    Schedcb(seq(TNUM_TPRI, _ => []), 0, None)
  }

  /** A task after its initialisation, activated or not. */
  function InitialTask(ipri: nat, active: bool): Tcb {
    Tcb(if active then Runnable else Dormant, ipri, false, false, false, true, Wercd(E_OK))
  }

  /** A task that has been asked to end, but does not allow that yet: it can run. */
  function AskedToEnd(x: Tcb): Tcb {
    x.(tstat := Runnable, raster := true, winfo := if x.tstat.Waiting? then Wercd(E_RASTER) else x.winfo)
  }

  class Kernel {
    const cfg: Config

    var tcb: seq<Tcb>
    var pri: seq<nat>
    var lastmtx: seq<Option<MtxId>>
    var sched: seq<Schedcb>
    var wq: seq<seq<TaskId>>
    var mtx: seq<Mtxcb>
    /** The tasks whose time event is in the time event heap of their domain. */
    var timers: set<TaskId>
    var runtsk: Option<TaskId>
    var schedtsk: Option<TaskId>
    var dspflg: bool
    /** Whether a task has not disabled dispatching, and whether the interrupt priority mask is open. */
    var enadsp: bool
    var ipmOpen: bool
    var twdsched: nat
    var idlesched: nat

    /** Where each task's queue entry is linked, and the mutexes each task holds, last one first. */
    ghost var place: seq<Place>
    ghost var held: seq<seq<MtxId>>

    // ---------- The invariant of the queues and the scheduler ----------

    ghost predicate Sizes()
      reads `pri, `sched, `wq, `twdsched, `idlesched, `place
    {
      && ConfigOk(cfg, |sched|)
      && |pri| == |place| == |cfg.unit|
      && (forall t: TaskId :: t < |pri| ==> pri[t] < TNUM_TPRI)
      && |wq| == |cfg.tpri|
      && KERNEL < |sched| && twdsched < |sched| && idlesched < |sched|
    }

    ghost predicate SchedInv()
      reads `pri, `sched, `wq, `schedtsk, `dspflg, `twdsched, `idlesched, `place
    {
      && Sizes()
      && ReadyQueues(sched, place, pri, cfg.unit)
      && WaitQueues(wq, place)
      && WaitOrder(wq, cfg.tpri, pri)
      && Caches(sched, |pri|)
      && (dspflg ==> schedtsk == Select(sched, pri, twdsched, idlesched))
    }

    // ---------- Scheduling units ----------

    /** update_schedtsk */
    method UpdateSchedtsk()
      requires Sizes() && Caches(sched, |pri|)
      modifies this`schedtsk
      ensures schedtsk == Select(sched, pri, twdsched, idlesched)
      ensures sched[KERNEL].pred.Some? ==>
        schedtsk == sched[KERNEL].pred
        || (schedtsk.Some? && schedtsk == sched[twdsched].pred && pri[schedtsk.value] < pri[sched[KERNEL].pred.value])
      ensures sched[twdsched].pred.Some? ==> schedtsk.Some? && pri[schedtsk.value] <= pri[sched[twdsched].pred.value]
      ensures sched[KERNEL].pred == None ==>
        schedtsk == if sched[twdsched].pred.Some? then sched[twdsched].pred else sched[idlesched].pred
    {
      if sched[KERNEL].pred.Some? {
        if sched[twdsched].pred.Some? && pri[sched[twdsched].pred.value] < pri[sched[KERNEL].pred.value] {
          schedtsk := sched[twdsched].pred;
        } else {
          schedtsk := sched[KERNEL].pred;
        }
      } else if sched[twdsched].pred.Some? {
        schedtsk := sched[twdsched].pred;
      } else {
        schedtsk := sched[idlesched].pred;
      }
    }

    /** search_predtsk, through the bitmap */
    method SearchPredtsk(sc: Schedcb) returns (t: TaskId)
      requires BitsOk(sc.queue, sc.primap) && sc.primap != 0
      ensures Best(sc.queue) == Some(t)
    {
      var p := BitmapSearch(sc.primap);
      t := sc.queue[p][0];
      BestIs(sc.queue, p);
    }

    /** What the invariant says about the unit and the ready queue of one task. */
    lemma UnitFacts(t: TaskId)
      requires SchedInv() && t < |pri|
      ensures cfg.unit[t] < |sched| && pri[t] < TNUM_TPRI && |cfg.unit| == |pri|
      ensures CacheOk(sched[cfg.unit[t]]) && |sched[cfg.unit[t]].queue| == TNUM_TPRI
      ensures sched[cfg.unit[t]].pred.Some? ==> sched[cfg.unit[t]].pred.value < |pri|
      ensures UnitQueues(sched[cfg.unit[t]].queue, cfg.unit[t], place, pri, cfg.unit)
      ensures Distinct(sched[cfg.unit[t]].queue[pri[t]])
      ensures t in sched[cfg.unit[t]].queue[pri[t]] <==> place[t] == Ready
    {
      assert UnitQueues(sched[cfg.unit[t]].queue, cfg.unit[t], place, pri, cfg.unit);
      assert IsReadyQueue(sched[cfg.unit[t]].queue[pri[t]], cfg.unit[t], pri[t], place, pri, cfg.unit);
    }

    /** make_runnable: links a task at the tail of its ready queue. */
    method MakeRunnable(t: TaskId)
      requires SchedInv() && t < |pri| && place[t] == Nowhere
      modifies this`sched, this`schedtsk, this`place
      ensures SchedInv() && place == old(place)[t := Ready]
      ensures QueueReplaced(old(sched), sched, cfg.unit[t], pri[t], old(sched[cfg.unit[t]].queue[pri[t]]) + [t])
      ensures !dspflg ==> schedtsk == old(schedtsk)
    {
      hide ReadyQueues, UnitQueues, IsReadyQueue, WaitQueues, WaitOrder, ConfigOk, CacheOk, Caches, Select, Has, PrimapBit;
      UnitFacts(t);
      var u, p := cfg.unit[t], pri[t];
      var sc := sched[u];
      ghost var s := sc.queue[p] + [t];
      DistinctSnoc(sc.queue[p], t);
      sched := sched[u := sc.(queue := sc.queue[p := sc.queue[p] + [t]], primap := sc.primap | PrimapBit(p))];
      var first := sc.pred.None? || p < pri[sc.pred.value];
      if first {
        sched := sched[u := sched[u].(pred := Some(t))];
      }
      place := place[t := Ready];
      ReadyGains(old(sched), sched, old(place), pri, cfg.unit, t, s);
      WaitIgnores(wq, old(place), t, Ready);
      CacheGains(sc, sched[u], u, p, t, false, old(place), pri, cfg.unit);
      assert sched == old(sched)[u := sched[u]];
      CachesUpdate(old(sched), u, sched[u], |pri|);
      if first {
        if dspflg {
          UpdateSchedtsk();
        }
      } else {
        SelectSame(old(sched), sched, pri, twdsched, idlesched);
      }
    }

    /** The part of make_non_runnable that concerns the scheduling unit: the queue, its bit and the
        task that goes first. */
    method UnlinkFromUnit(sc: Schedcb, u: nat, p: nat, t: TaskId) returns (sc': Schedcb)
      requires CacheOk(sc) && UnitQueues(sc.queue, u, place, pri, cfg.unit) && p < TNUM_TPRI && t in sc.queue[p]
      ensures CacheOk(sc') && sc'.queue == sc.queue[p := Without(sc.queue[p], t)]
      ensures sc.pred != Some(t) ==> sc'.pred == sc.pred
    {
      hide UnitQueues, Has, PrimapBit;
      var s := Without(sc.queue[p], t);
      BestLoses(sc, u, p, t, place, pri, cfg.unit);
      sc' := sc.(queue := sc.queue[p := s]);
      if s == [] {
        BitsCleared(sc.queue, sc.primap, p);
        sc' := sc'.(primap := sc.primap & !PrimapBit(p));
        if sc.pred == Some(t) {
          BitsEmpty(sc'.queue, sc'.primap);
          if sc'.primap == 0 {
            sc' := sc'.(pred := None);
          } else {
            var first := SearchPredtsk(sc');
            sc' := sc'.(pred := Some(first));
          }
        }
      } else {
        BitsSet(sc.queue, sc.primap, p, s);
        if sc.pred == Some(t) {
          sc' := sc'.(pred := Some(s[0]));
        }
      }
    }

    /** make_non_runnable: unlinks a task from its ready queue. */
    method MakeNonRunnable(t: TaskId)
      requires SchedInv() && t < |pri| && place[t] == Ready
      modifies this`sched, this`schedtsk, this`place
      ensures SchedInv() && place == old(place)[t := Nowhere]
      ensures QueueReplaced(old(sched), sched, cfg.unit[t], pri[t], Without(old(sched[cfg.unit[t]].queue[pri[t]]), t))
      ensures !dspflg ==> schedtsk == old(schedtsk)
    {
      hide ReadyQueues, UnitQueues, IsReadyQueue, WaitQueues, WaitOrder, ConfigOk, Caches, CacheOk, Select, Distinct, BitsOk;
      UnitFacts(t);
      var u, p := cfg.unit[t], pri[t];
      var sc := sched[u];
      ghost var s := Without(sc.queue[p], t);
      WithoutHolds(sc.queue[p], t);
      var sc' := UnlinkFromUnit(sc, u, p, t);
      sched := sched[u := sc'];
      place := place[t := Nowhere];
      ReadyLoses(old(sched), sched, old(place), pri, cfg.unit, t, s, Nowhere);
      WaitIgnores(wq, old(place), t, Nowhere);
      PredInRange(u);
      CachesUpdate(old(sched), u, sc', |pri|);
      if sc.pred == Some(t) {
        if dspflg {
          UpdateSchedtsk();
        }
      } else {
        SelectSame(old(sched), sched, pri, twdsched, idlesched);
      }
    }

    lemma PredInRange(u: nat)
      requires Sizes() && u < |sched| && CacheOk(sched[u]) && ReadyQueues(sched, place, pri, cfg.unit)
      ensures sched[u].pred.Some? ==> sched[u].pred.value < |pri|
    {
      assert UnitQueues(sched[u].queue, u, place, pri, cfg.unit);
      if sched[u].pred.Some? {
        PredPriority(sched[u], u, place, pri, cfg.unit);
      }
    }

    /** Moves a task from one queue of its unit to another. In mutex mode it goes to the front of its
        new queue, otherwise to the tail. */
    method Relink(sc: Schedcb, t: TaskId, oldpri: nat, newpri: nat, mtxmode: bool) returns (sc': Schedcb)
      requires |sc.queue| == TNUM_TPRI && BitsOk(sc.queue, sc.primap)
      requires oldpri < TNUM_TPRI && newpri < TNUM_TPRI && t in sc.queue[oldpri]
      ensures sc'.queue == Moved(sc.queue, t, oldpri, newpri, mtxmode) && sc'.pred == sc.pred
      ensures |sc'.queue| == TNUM_TPRI && BitsOk(sc'.queue, sc'.primap) && sc'.queue[newpri] != []
    {
      hide BitsOk, Has, PrimapBit, Without;
      var s := Without(sc.queue[oldpri], t);
      var queue, primap := sc.queue[oldpri := s], sc.primap;
      if s == [] {
        BitsCleared(sc.queue, sc.primap, oldpri);
        primap := primap & !PrimapBit(oldpri);
      } else {
        BitsSet(sc.queue, sc.primap, oldpri, s);
      }
      assert BitsOk(queue, primap);
      var r := if mtxmode then [t] + queue[newpri] else queue[newpri] + [t];
      BitsSet(queue, primap, newpri, r);
      sc' := Schedcb(queue[newpri := r], primap | PrimapBit(newpri), sc.pred);
    }

    /** The part of change_priority that concerns the scheduling unit of a task that can run. */
    method MoveInUnit(sc: Schedcb, u: nat, t: TaskId, oldpri: nat, newpri: nat, mtxmode: bool) returns (sc': Schedcb)
      requires CacheOk(sc) && UnitQueues(sc.queue, u, place, pri, cfg.unit)
      requires |sc.queue| == TNUM_TPRI && oldpri < TNUM_TPRI && newpri < TNUM_TPRI && t in sc.queue[oldpri]
      ensures CacheOk(sc') && sc'.queue == Moved(sc.queue, t, oldpri, newpri, mtxmode)
      ensures sc'.pred == sc.pred || sc'.pred == Some(t) || sc.pred == Some(t)
    {
      hide UnitQueues, BitsOk, Best, Moved;
      BestMoves(sc, u, t, oldpri, newpri, mtxmode, place, pri, cfg.unit);
      sc' := Relink(sc, t, oldpri, newpri, mtxmode);
      if sc.pred == Some(t) {
        if newpri >= oldpri {
          BitsEmpty(sc'.queue, sc'.primap);
          BestSome(sc'.queue, newpri);
          var first := SearchPredtsk(sc');
          sc' := sc'.(pred := Some(first));
        }
      } else if (if mtxmode then newpri <= pri[sc.pred.value] else newpri < pri[sc.pred.value]) {
        sc' := sc'.(pred := Some(t));
      }
    }

    /** change_priority: moves a task in its ready queue or in a priority-ordered wait queue. */
    method ChangePriority(t: TaskId, newpri: nat, mtxmode: bool)
      requires SchedInv() && t < |pri| == |tcb| && newpri < TNUM_TPRI && place[t] == PlaceOf(tcb[t].tstat)
      requires place[t].Wait? ==> place[t].q < |wq|
      modifies this`pri, this`sched, this`schedtsk, this`wq
      ensures SchedInv() && pri == old(pri)[t := newpri]
      ensures place[t] != Ready ==> sched == old(sched) && schedtsk == old(schedtsk)
      ensures place[t] == Ready ==> MovedQueues(old(sched), sched, cfg.unit[t], t, old(pri[t]), newpri, mtxmode)
      ensures if place[t].Wait? && cfg.tpri[place[t].q]
              then var s := Without(old(wq[place[t].q]), t);
                   InRange(s, |pri|) && wq == old(wq)[place[t].q := InsertTpri(s, t, pri)]
              else wq == old(wq)
      ensures !dspflg ==> schedtsk == old(schedtsk)
    {
      hide ReadyQueues, UnitQueues, IsReadyQueue, WaitQueues, WaitOrder, ConfigOk, Caches, CacheOk, Select, Distinct, BitsOk;
      UnitFacts(t);
      var u, oldpri := cfg.unit[t], pri[t];
      if tcb[t].tstat.Runnable? {
        var sc := sched[u];
        var sc' := MoveInUnit(sc, u, t, oldpri, newpri, mtxmode);
        pri := pri[t := newpri];
        sched := sched[u := sc'];
        ReadyMoves(old(sched), sched, place, old(pri), cfg.unit, t, newpri, mtxmode);
        WaitOrderIgnores(wq, place, cfg.tpri, old(pri), t, newpri);
        PredInRange(u);
        CachesUpdate(old(sched), u, sc', |pri|);
        if sc.pred == Some(t) || sc'.pred == Some(t) {
          if dspflg {
            UpdateSchedtsk();
          }
        } else {
          SelectWithoutTask(old(sched), sched, place, old(pri), cfg.unit, t, newpri, twdsched, idlesched);
        }
      } else {
        pri := pri[t := newpri];
        assert place[t := place[t]] == place;
        ReadyIgnores(sched, place, old(pri), cfg.unit, t, place[t], newpri);
        SelectIgnores(sched, place, old(pri), cfg.unit, t, newpri, twdsched, idlesched);
        if tcb[t].tstat.Waiting? && tcb[t].tstat.cause.Object? {
          var q := tcb[t].tstat.cause.q;
          if cfg.tpri[q] {
            WaitMoves(wq, place, cfg.tpri, old(pri), t, q, newpri);
            wq := wq[q := InsertTpri(Without(wq[q], t), t, pri)];
          } else {
            WaitOrderIgnores(wq, place, cfg.tpri, old(pri), t, newpri);
          }
        } else {
          WaitOrderIgnores(wq, place, cfg.tpri, old(pri), t, newpri);
        }
      }
    }

    /** rotate_ready_queue: the head of a ready queue with several tasks goes to the tail. */
    method RotateReadyQueue(p: nat, u: nat)
      requires SchedInv() && p < TNUM_TPRI && u < |sched|
      modifies this`sched, this`schedtsk
      ensures SchedInv() && |old(sched[u].queue)| == TNUM_TPRI
      ensures var q := old(sched[u].queue[p]);
              QueueReplaced(old(sched), sched, u, p, if |q| < 2 then q else q[1..] + [q[0]])
      ensures !dspflg ==> schedtsk == old(schedtsk)
    {
      hide ReadyQueues, UnitQueues, IsReadyQueue, WaitQueues, WaitOrder, ConfigOk, CacheOk, Select, Distinct, BitsOk;
      OneUnit(u);
      QueueFacts(sched, place, pri, cfg.unit, u, p);
      var sc := sched[u];
      var q := sc.queue[p];
      if |q| >= 2 {
        var r := q[1..] + [q[0]];
        RotateHolds(q);
        RotateCache(sc, u, p, place, pri, cfg.unit);
        sched := sched[u := sc.(queue := sc.queue[p := r])];
        if sc.pred == Some(q[0]) {
          sched := sched[u := sched[u].(pred := Some(r[0]))];
        }
        ReadyPermutes(old(sched), sched, place, pri, cfg.unit, u, p, r);
        PredInRange(u);
        assert sched == old(sched)[u := sched[u]];
        CachesUpdate(old(sched), u, sched[u], |pri|);
        if sc.pred == Some(q[0]) {
          if dspflg {
            UpdateSchedtsk();
          }
        } else {
          SelectSame(old(sched), sched, pri, twdsched, idlesched);
        }
      } else {
        assert sc.queue[p := q] == sc.queue;
      }
    }

    lemma OneUnit(u: nat)
      requires SchedInv() && u < |sched|
      ensures CacheOk(sched[u]) && UnitQueues(sched[u].queue, u, place, pri, cfg.unit)
      ensures |sched[u].queue| == TNUM_TPRI && |place| == |pri| == |cfg.unit|
    {
    }

    /** Switches of time windows and system cycles, and the window part of set_dspflg: other units
        become the current and the idle one. */
    method SwitchWindow(twd: nat, idle: nat)
      requires SchedInv() && twd < |sched| && idle < |sched|
      modifies this`twdsched, this`idlesched, this`schedtsk
      ensures SchedInv() && twdsched == twd && idlesched == idle
      ensures !dspflg ==> schedtsk == old(schedtsk)
    {
      twdsched, idlesched := twd, idle;
      if dspflg {
        UpdateSchedtsk();
      }
    }

    // ---------- Wait queues ----------

    /** wobj_queue_insert and the insertion of receivers: links a task into a wait queue, in priority
        order or at the tail. */
    method WaitInsert(q: nat, t: TaskId)
      requires SchedInv() && t < |pri| && place[t] == Nowhere && q < |wq|
      modifies this`wq, this`place
      ensures SchedInv() && place == old(place)[t := Wait(q)] && InRange(old(wq[q]), |pri|) && t !in old(wq[q])
      ensures wq == old(wq)[q := Joined(old(wq[q]), t, pri, cfg.tpri[q])]
      ensures !cfg.tpri[q] ==> wq[q] == old(wq[q]) + [t]
      ensures cfg.tpri[q] ==> wq[q] == InsertAt(old(wq[q]), PriorityPlace(PrioritiesOf(old(wq[q]), pri), pri[t]), t)
    {
      hide ReadyQueues, UnitQueues, IsReadyQueue, WaitQueues, IsWaitQueue, ConfigOk, CacheOk, Caches, Select, Distinct, BitsOk;
      WaitFacts(wq, place, q);
      ghost var s := Joined(wq[q], t, pri, cfg.tpri[q]);
      JoinedHolds(wq[q], t, pri, cfg.tpri[q]);
      JoinedIs(wq[q], t, pri, cfg.tpri[q]);
      WaitOrderUpdate(wq, cfg.tpri, pri, q, s);
      WaitGains(wq, place, t, q, s);
      ReadyIgnores(sched, place, pri, cfg.unit, t, Wait(q), pri[t]);
      assert pri[t := pri[t]] == pri;
      if cfg.tpri[q] {
        wq := wq[q := InsertTpri(wq[q], t, pri)];
      } else {
        wq := wq[q := wq[q] + [t]];
      }
      place := place[t := Wait(q)];
    }

    /** queue_delete on a waiting task */
    method WaitUnlink(t: TaskId)
      requires SchedInv() && t < |pri| && place[t].Wait? && place[t].q < |wq|
      requires t < |tcb| && tcb[t].tstat.Waiting? && tcb[t].tstat.cause == Object(place[t].q)
      modifies this`wq, this`place
      ensures SchedInv() && place == old(place)[t := Nowhere]
      ensures wq == old(wq)[old(place[t].q) := Without(old(wq[place[t].q]), t)]
    {
      hide ReadyQueues, UnitQueues, IsReadyQueue, WaitQueues, IsWaitQueue, ConfigOk, CacheOk, Caches, Select, Distinct, BitsOk;
      ghost var q := place[t].q;
      WaitFacts(wq, place, q);
      ghost var s := Without(wq[q], t);
      WithoutHolds(wq[q], t);
      WaitLoses(wq, place, t, q, s, Nowhere);
      ReadyIgnores(sched, place, pri, cfg.unit, t, Nowhere, pri[t]);
      assert pri[t := pri[t]] == pri;
      if cfg.tpri[q] {
        WithoutByPriority(wq[q], t, pri);
      }
      wq := wq[tcb[t].tstat.cause.q := Without(wq[tcb[t].tstat.cause.q], t)];
      place := place[t := Nowhere];
    }

    // ---------- The invariant of tasks and mutexes ----------

    /** The whole invariant, but for the state of the tasks of out, the priority of the tasks of
        outPri and the owners of the mutexes of loose. */
    ghost predicate Mid(out: set<TaskId>, outPri: set<TaskId>, loose: set<MtxId>)
      reads this
    {
      && SchedInv()
      && StatesOk(tcb, place, timers, held, cfg.ipri, cfg.ceil, out)
      && PrioritiesOk(tcb, pri, held, cfg.ceil, outPri)
      && MutexesOk(lastmtx, held, mtx, loose) && |mtx| == |cfg.ceil|
      && WaitersOk(wq, mtx)
    }

    /** The invariant between service calls and interrupts: besides, the running task is the one
        that should run, and can. */
    ghost predicate Inv()
      reads this
    {
      && Mid({}, {}, {})
      && runtsk == schedtsk
      && (dspflg <==> enadsp && ipmOpen)
      && (!dspflg ==> runtsk.Some?)
      && (runtsk.Some? ==> runtsk.value < |tcb| && tcb[runtsk.value].tstat.Runnable?)
      && RequestsPending(tcb, runtsk, dspflg)
    }

    /** A task that is in no queue and whose wait, if any, has its result. */
    ghost predicate Detached(t: TaskId)
      reads this
    {
      t < |tcb| == |place| && place[t] == Nowhere && t !in timers
    }

    /** The state of one task has changed from what it was, and with it its place and its timer. */
    lemma OneTask(t: TaskId, tcb0: seq<Tcb>, place0: seq<Place>, timers0: set<TaskId>,
                  out: set<TaskId>, out': set<TaskId>, outPri: set<TaskId>, loose: set<MtxId>)
      requires StatesOk(tcb0, place0, timers0, held, cfg.ipri, cfg.ceil, out) && PrioritiesOk(tcb0, pri, held, cfg.ceil, outPri)
      requires SchedInv() && WaitersOk(wq, mtx) && MutexesOk(lastmtx, held, mtx, loose) && |mtx| == |cfg.ceil|
      requires t < |tcb0| == |tcb| && t < |place| && out <= out' + {t}
      requires tcb == tcb0[t := tcb[t]] && place == place0[t := place[t]] && timers - {t} == timers0 - {t}
      requires tcb[t].bpri == tcb0[t].bpri
      requires t !in out' ==> t < |held| && t < |cfg.ipri| && StateOk(tcb[t], place[t], t in timers, held[t], cfg.ipri[t], cfg.ceil)
      ensures Mid(out', outPri, loose)
    {
      hide SchedInv, StateOk, PriorityOk, MutexesOk, WaitersOk;
      StatesUpdate(tcb0, tcb, place0, place, timers0, timers, held, cfg.ipri, cfg.ceil, out, out', t);
      PrioritiesUpdate(tcb0, tcb, pri, pri, held, held, cfg.ceil, outPri, outPri, t);
    }

    // ---------- Ending a wait ----------

    /** wait_dequeue_tmevtb: a registered time event is cancelled. */
    method WaitDequeueTmevtb(t: TaskId)
      requires t < |tcb| && tcb[t].winfo.Event? && (tcb[t].winfo.registered ==> t in timers)
      modifies this`timers
      ensures timers == old(timers) - if tcb[t].winfo.registered then {t} else {}
    {
      if tcb[t].winfo.registered {
        timers := timers - {t};
      }
    }

    /** The result of a wait takes the place of the time event in the union, so it may be written
        only once, when the time event is no longer registered. */
    method SetWercd(t: TaskId, ercd: Error)
      requires t < |tcb| && tcb[t].winfo.Event? && t !in timers
      modifies this`tcb
      ensures tcb == old(tcb)[t := old(tcb[t]).(winfo := Wercd(ercd))]
    {
      tcb := tcb[t := tcb[t].(winfo := Wercd(ercd))];
    }

    lemma UnitOf(t: TaskId)
      requires SchedInv() && t < |pri|
      ensures t < |cfg.unit| && cfg.unit[t] < |sched| && pri[t] < |sched[cfg.unit[t]].queue| == TNUM_TPRI
    {
      UnitFacts(t);
    }

    /** make_non_wait: a waiting task becomes one that can run, or merely suspended. */
    method MakeNonWait(t: TaskId, ghost out: set<TaskId>, ghost outPri: set<TaskId>, ghost loose: set<MtxId>)
      requires Mid(out, outPri, loose) && t in out && Detached(t)
      requires tcb[t].tstat.Waiting? && !tcb[t].raster
      modifies this`tcb, this`sched, this`schedtsk, this`place
      ensures Mid(out - {t}, outPri, loose)
      ensures var s := if old(tcb[t]).tstat.suspended then Suspended else Runnable;
              && tcb == old(tcb)[t := old(tcb[t]).(tstat := s)] && place == old(place)[t := PlaceOf(s)]
      ensures QueuesGrow(old(sched), sched)
      ensures !dspflg ==> schedtsk == old(schedtsk)
    {
      hide SchedInv, StateOk, PriorityOk, MutexesOk, WaitersOk, QueueReplaced, QueuesGrow;
      NothingMoves(sched);
      if !tcb[t].tstat.suspended {
        tcb := tcb[t := tcb[t].(tstat := Runnable)];
        UnitOf(t);
        MakeRunnable(t);
        TailGrows(old(sched), sched, cfg.unit[t], pri[t], t);
      } else {
        tcb := tcb[t := tcb[t].(tstat := Suspended)];
      }
      NotWaiting(tcb[t], place[t], held[t], cfg.ipri[t], cfg.ceil);
    }

    /** What the invariant says about one task. */
    lemma TaskFacts(t: TaskId, out: set<TaskId>, outPri: set<TaskId>, loose: set<MtxId>)
      requires Mid(out, outPri, loose) && t < |tcb|
      ensures |tcb| == |pri| == |place| == |held| == |lastmtx| == |cfg.unit| == |cfg.ipri|
      ensures t !in out ==> StateOk(tcb[t], place[t], t in timers, held[t], cfg.ipri[t], cfg.ceil)
      ensures t !in out && place[t].Wait? ==> place[t].q < |wq| ==> t in wq[place[t].q]
      ensures t !in outPri ==> PriorityOk(tcb[t].bpri, pri[t], held[t], cfg.ceil)
    {
      if place[t].Wait? && place[t].q < |wq| {
        WaitFacts(wq, place, place[t].q);
      }
    }

    /** Takes a task out of its wait queue. It stays waiting, but in no queue. */
    method Unlink(t: TaskId, ghost out: set<TaskId>, ghost outPri: set<TaskId>, ghost loose: set<MtxId>)
      requires Mid(out, outPri, loose) && t < |tcb| && t !in out
      requires tcb[t].tstat.Waiting? && tcb[t].tstat.cause.Object? && tcb[t].tstat.cause.q < |wq|
      modifies this`wq, this`place
      ensures Mid(out + {t}, outPri, loose)
      ensures place == old(place)[t := Nowhere]
      ensures wq == old(wq)[tcb[t].tstat.cause.q := Without(old(wq[tcb[t].tstat.cause.q]), t)]
      ensures tcb[t].winfo.Event? && !tcb[t].raster && (t in timers <==> tcb[t].winfo.registered)
    {
      hide SchedInv, PriorityOk, MutexesOk, WaitersOk, Without;
      TaskFacts(t, out, outPri, loose);
      ghost var q := tcb[t].tstat.cause.q;
      QueueDistinct(q);
      WithoutHolds(wq[q], t);
      WaitersLeave(wq, mtx, q, Without(wq[q], t));
      WaitUnlink(t);
    }

    lemma QueueDistinct(q: nat)
      requires SchedInv() && q < |wq|
      ensures Distinct(wq[q]) && InRange(wq[q], |place|) && |place| == |pri| && |wq| == |cfg.tpri| == |cfg.kind|
      ensures forall t: TaskId :: t in wq[q] <==> t < |place| && place[t] == Wait(q)
    {
      WaitFacts(wq, place, q);
    }

    /** Ends the wait of a task that is in no queue any more. */
    method EndWait(t: TaskId, ercd: Error, ghost out: set<TaskId>, ghost outPri: set<TaskId>, ghost loose: set<MtxId>)
      requires Mid(out, outPri, loose) && t in out && t < |tcb| && place[t] == Nowhere
      requires tcb[t].tstat.Waiting? && !tcb[t].raster
      requires tcb[t].winfo.Event? && (tcb[t].winfo.registered <==> t in timers)
      modifies this`tcb, this`sched, this`schedtsk, this`place, this`timers
      ensures Mid(out - {t}, outPri, loose)
      ensures timers == old(timers) - {t}
      ensures tcb == old(tcb)[t := EndedWait(old(tcb[t]), ercd)] && place == old(place)[t := PlaceOf(tcb[t].tstat)]
      ensures !dspflg ==> schedtsk == old(schedtsk)
    {
      hide Mid;
      SetResult(t, ercd, out, outPri, loose);
      MakeNonWait(t, out, outPri, loose);
    }

    /** The first part of it: the time event is cancelled, and its place taken by the result. */
    method SetResult(t: TaskId, ercd: Error, ghost out: set<TaskId>, ghost outPri: set<TaskId>, ghost loose: set<MtxId>)
      requires Mid(out, outPri, loose) && t in out && t < |tcb|
      requires tcb[t].winfo.Event? && (tcb[t].winfo.registered <==> t in timers)
      modifies this`tcb, this`timers
      ensures Mid(out, outPri, loose) && timers == old(timers) - {t}
      ensures tcb == old(tcb)[t := old(tcb[t]).(winfo := Wercd(ercd))] && |place| == |tcb|
    {
      hide SchedInv, StatesOk, PrioritiesOk, MutexesOk, WaitersOk;
      OwnChain(t, out, outPri, loose);
      WaitDequeueTmevtb(t);
      SetWercd(t, ercd);
      OneTask(t, old(tcb), place, old(timers), out, out, outPri, loose);
    }

    /** messagebuf_signal, as far as the tasks are concerned: the first senders of a message buffer,
        as many as find room, are released. How many that is depends on the buffer. */
    method MbfSignal(q: nat, room: nat, ghost out: set<TaskId>, ghost outPri: set<TaskId>, ghost loose: set<MtxId>)
      requires Mid(out, outPri, loose) && q < |wq| && forall t: TaskId :: t in out ==> t < |place| && place[t] == Nowhere
      modifies this`tcb, this`wq, this`sched, this`schedtsk, this`place, this`timers
      ensures Mid(out, outPri, loose)
      ensures var k := if room < |old(wq[q])| then room else |old(wq[q])|;
              Released(old(tcb), tcb, old(wq[q])[..k], E_OK) && wq == old(wq)[q := old(wq[q])[k..]]
      ensures forall t: TaskId :: t in out ==> place[t] == Nowhere
      ensures timers <= old(timers) && forall t :: t in out && t in old(timers) ==> t in timers
      ensures !dspflg ==> schedtsk == old(schedtsk)
    {
      hide Mid, Released, EndedWait;
      var left := room;
      ghost var k := 0;
      MidDistinct(q, out, outPri, loose);
      ReleasedNone(tcb, E_OK);
      while wq[q] != [] && left > 0
        invariant 0 <= k <= |old(wq[q])| && left == room - k
        invariant Mid(out, outPri, loose) && |place| == |old(place)| && |wq| == |old(wq)|
        invariant |tcb| == |old(tcb)|
        invariant Released(old(tcb), tcb, old(wq[q])[..k], E_OK) && wq == old(wq)[q := old(wq[q])[k..]]
        invariant forall t: TaskId :: t in out ==> place[t] == Nowhere
        invariant timers <= old(timers) && forall t :: t in out && t in old(timers) ==> t in timers
        invariant !dspflg ==> schedtsk == old(schedtsk)
      {
        ghost var was := tcb;
        assert wq[q][0] == old(wq[q])[k];
        ReleaseHead(q, E_OK, out, outPri, loose);
        ReleasedOneMore(old(tcb), was, old(wq[q]), k, E_OK);
        left := left - 1;
        k := k + 1;
      }
    }

    lemma MidDistinct(q: nat, out: set<TaskId>, outPri: set<TaskId>, loose: set<MtxId>)
      requires Mid(out, outPri, loose) && q < |wq|
      ensures Distinct(wq[q])
    {
      QueueDistinct(q);
    }

    /** queue_delete_next and the end of the wait of the task that was first in the queue. */
    method ReleaseHead(q: nat, ercd: Error, ghost out: set<TaskId>, ghost outPri: set<TaskId>, ghost loose: set<MtxId>)
      requires Mid(out, outPri, loose) && q < |wq| && wq[q] != []
      requires forall t: TaskId :: t in out ==> t < |place| && place[t] == Nowhere
      modifies this`tcb, this`wq, this`sched, this`schedtsk, this`place, this`timers
      ensures Mid(out, outPri, loose)
      ensures var t := old(wq[q][0]);
              && t !in out && t < |old(tcb)| == |old(place)|
              && old(tcb[t]).tstat.Waiting? && old(tcb[t]).tstat.cause == Object(q)
              && tcb == old(tcb)[t := EndedWait(old(tcb[t]), ercd)]
              && place == old(place)[t := PlaceOf(tcb[t].tstat)]
              && timers == old(timers) - {t}
      ensures wq == old(wq)[q := old(wq[q])[1..]]
      ensures !dspflg ==> schedtsk == old(schedtsk)
    {
      hide SchedInv, PriorityOk, MutexesOk, WaitersOk;
      QueueDistinct(q);
      var t := wq[q][0];
      assert t in wq[q];
      TaskFacts(t, out, outPri, loose);
      assert Without(wq[q], t) == wq[q][1..];
      Unlink(t, out, outPri, loose);
      EndWait(t, ercd, out + {t}, outPri, loose);
      assert out + {t} - {t} == out;
    }

    // ---------- Beginning a wait ----------

    /** make_wait and make_wait_tmout: the running task leaves its ready queue. With a timeout its
        time event is registered. */
    method MakeWait(cause: Cause, timed: bool)
      requires Mid({}, {}, {}) && runtsk.Some? && runtsk.value < |tcb|
      requires tcb[runtsk.value].tstat.Runnable? && !tcb[runtsk.value].raster
      requires cause.Delay? ==> timed
      modifies this`tcb, this`sched, this`schedtsk, this`place, this`timers
      ensures Mid({runtsk.value}, {}, {})
      ensures tcb == old(tcb)[runtsk.value := old(tcb[runtsk.value]).(tstat := Waiting(cause, false), winfo := Event(timed))]
      ensures runtsk.value < |old(place)| && place == old(place)[runtsk.value := Nowhere]
      ensures timers == old(timers) + if timed then {runtsk.value} else {}
      ensures runtsk.value !in old(timers)
      ensures !cause.Object? ==> Mid({}, {}, {})
      ensures !dspflg ==> schedtsk == old(schedtsk)
    {
      hide SchedInv, PrioritiesOk, MutexesOk, WaitersOk, StatesOk;
      var t := runtsk.value;
      TaskFacts(t, {}, {}, {});
      tcb := tcb[t := tcb[t].(tstat := Waiting(cause, false))];
      MakeNonRunnable(t);
      tcb := tcb[t := tcb[t].(winfo := Event(timed))];
      if timed {
        timers := timers + {t};
      }
      OneTask(t, old(tcb), old(place), old(timers), {}, {t}, {}, {});
      if !cause.Object? {
        OneTask(t, old(tcb), old(place), old(timers), {}, {}, {}, {});
      }
    }

    /** wobj_make_wait and wobj_make_wait_tmout, and their equivalents for receivers: the running
        task waits for an object. */
    method WobjMakeWait(q: nat, timed: bool)
      requires Mid({}, {}, {}) && runtsk.Some? && runtsk.value < |tcb| && q < |wq|
      requires tcb[runtsk.value].tstat.Runnable? && !tcb[runtsk.value].raster
      requires q < |mtx| ==> mtx[q].loctsk.Some? && mtx[q].loctsk != runtsk
      requires q < |cfg.ceil| && cfg.ceil[q].Some? ==> cfg.ceil[q].value <= tcb[runtsk.value].bpri
      modifies this`tcb, this`wq, this`sched, this`schedtsk, this`place, this`timers
      ensures Mid({}, {}, {})
      ensures tcb == old(tcb)[runtsk.value := old(tcb[runtsk.value]).(tstat := Waiting(Object(q), false), winfo := Event(timed))]
      ensures place == old(place)[runtsk.value := Wait(q)]
      ensures timers == old(timers) + if timed then {runtsk.value} else {}
      ensures runtsk.value < |pri| && InRange(old(wq[q]), |pri|) && q < |cfg.tpri|
        && wq == old(wq)[q := Joined(old(wq[q]), runtsk.value, pri, cfg.tpri[q])]
      ensures !cfg.tpri[q] ==> wq[q] == old(wq[q]) + [runtsk.value]
      ensures cfg.tpri[q] ==> wq[q] == InsertAt(old(wq[q]), PriorityPlace(PrioritiesOf(old(wq[q]), pri), pri[runtsk.value]), runtsk.value)
      ensures !dspflg ==> schedtsk == old(schedtsk)
    {
      hide Mid, Joined, PriorityPlace, PrioritiesOf, InsertAt;
      var t := runtsk.value;
      MakeWait(Object(q), timed);
      JoinQueue(t, q);
    }

    /** wobj_queue_insert, for a task whose state says already that it waits for the object. */
    method JoinQueue(t: TaskId, q: nat)
      requires Mid({t}, {}, {}) && t < |tcb| && t < |place| && place[t] == Nowhere && q < |wq|
      requires tcb[t].tstat.Waiting? && tcb[t].tstat.cause == Object(q) && !tcb[t].raster
      requires tcb[t].winfo.Event? && (t in timers <==> tcb[t].winfo.registered)
      requires q < |mtx| ==> mtx[q].loctsk.Some? && mtx[q].loctsk.value != t
      requires q < |cfg.ceil| && cfg.ceil[q].Some? ==> cfg.ceil[q].value <= tcb[t].bpri
      modifies this`wq, this`place
      ensures Mid({}, {}, {}) && place == old(place)[t := Wait(q)]
      ensures t < |pri| && InRange(old(wq[q]), |pri|) && q < |cfg.tpri| && wq == old(wq)[q := Joined(old(wq[q]), t, pri, cfg.tpri[q])]
      ensures !cfg.tpri[q] ==> wq[q] == old(wq[q]) + [t]
      ensures cfg.tpri[q] ==> wq[q] == InsertAt(old(wq[q]), PriorityPlace(PrioritiesOf(old(wq[q]), pri), pri[t]), t)
    {
      hide SchedInv, StatesOk, PrioritiesOk, MutexesOk, WaitersOk, Joined, PriorityPlace, PrioritiesOf, InsertAt;
      OwnChain(t, {t}, {}, {});
      TaskFacts(t, {t}, {}, {});
      QueueDistinct(q);
      JoinedHolds(wq[q], t, pri, cfg.tpri[q]);
      WaitersJoin(wq, mtx, q, Joined(wq[q], t, pri, cfg.tpri[q]), t);
      WaitInsert(q, t);
      OneTask(t, tcb, old(place), timers, {t}, {}, {}, {});
    }

    /** The running task does not stop being able to run because another wait ends. */
    twostate lemma RunningStays()
      requires old(Inv()) && Mid({}, {}, {}) && runtsk == old(runtsk) && dspflg == old(dspflg)
      requires !dspflg ==> schedtsk == old(schedtsk)
      requires |tcb| == |old(tcb)|
      requires forall t: TaskId :: t < |tcb| && old(tcb[t]).tstat.Runnable? ==> tcb[t].tstat.Runnable?
      ensures !dspflg ==> schedtsk == runtsk && runtsk.Some? && runtsk.value < |tcb| && tcb[runtsk.value].tstat.Runnable?
    {
    }

    /** Dispatching: the task that should run becomes the running one. */
    method Dispatch()
      requires Mid({}, {}, {}) && RequestsPending(tcb, runtsk, dspflg) && (dspflg <==> enadsp && ipmOpen)
      requires !dspflg ==> schedtsk == runtsk && runtsk.Some? && runtsk.value < |tcb| && tcb[runtsk.value].tstat.Runnable?
      modifies this`runtsk
      ensures Inv() && runtsk == schedtsk
    {
      if dspflg {
        SelectIsReady(sched, place, pri, cfg.unit, twdsched, idlesched);
        if schedtsk.Some? {
          TaskFacts(schedtsk.value, {}, {}, {});
        }
      }
      runtsk := schedtsk;
    }

    // ---------- Task synchronisation ----------

    /** slp_tsk and tslp_tsk. No result means that the task waits; the result comes with the end of
        the wait. */
    method SlpTsk(tmo: Tmo) returns (ercd: Option<Error>)
      requires Inv() && runtsk.Some? && dspflg
      modifies this`tcb, this`sched, this`schedtsk, this`place, this`timers, this`runtsk
      ensures Inv()
      ensures var t := old(runtsk.value); var x := old(tcb[t]);
              if x.raster then ercd == Some(E_RASTER) && tcb == old(tcb)
              else if x.wupque then ercd == Some(E_OK) && tcb == old(tcb)[t := x.(wupque := false)]
              else if tmo.Poll? then ercd == Some(E_TMOUT) && tcb == old(tcb)
              else ercd == None && tcb == old(tcb)[t := x.(tstat := Waiting(Sleep, false), winfo := Event(tmo.Finite?))]
      ensures ercd.Some? ==> sched == old(sched) && timers == old(timers)
      ensures ercd == None ==> timers == old(timers) + if tmo.Finite? then {old(runtsk.value)} else {}
    {
      hide SchedInv, PriorityOk, MutexesOk, WaitersOk;
      var t := runtsk.value;
      TaskFacts(t, {}, {}, {});
      if tcb[t].raster {
        ercd := Some(E_RASTER);
      } else if tcb[t].wupque {
        tcb := tcb[t := tcb[t].(wupque := false)];
        ercd := Some(E_OK);
      } else if tmo.Poll? {
        ercd := Some(E_TMOUT);
      } else {
        MakeWait(Sleep, tmo.Finite?);
        Dispatch();
        ercd := None;
      }
    }

    /** dly_tsk */
    method DlyTsk() returns (ercd: Option<Error>)
      requires Inv() && runtsk.Some? && dspflg
      modifies this`tcb, this`sched, this`schedtsk, this`place, this`timers, this`runtsk
      ensures Inv()
      ensures var t := old(runtsk.value); var x := old(tcb[t]);
              if x.raster then ercd == Some(E_RASTER) && tcb == old(tcb) && sched == old(sched) && timers == old(timers)
              else ercd == None && tcb == old(tcb)[t := x.(tstat := Waiting(Delay, false), winfo := Event(true))]
                   && timers == old(timers) + {t}
    {
      hide SchedInv, PriorityOk, MutexesOk, WaitersOk;
      TaskFacts(runtsk.value, {}, {}, {});
      if tcb[runtsk.value].raster {
        ercd := Some(E_RASTER);
      } else {
        MakeWait(Delay, true);
        Dispatch();
        ercd := None;
      }
    }

    /** wait_complete, for a task that sleeps. */
    method WakeUp(t: TaskId)
      requires Inv() && t < |tcb| && tcb[t].tstat.Waiting? && tcb[t].tstat.cause.Sleep?
      modifies this`tcb, this`sched, this`schedtsk, this`place, this`timers
      ensures Mid({}, {}, {}) && Released(old(tcb), tcb, [t], E_OK) && timers == old(timers) - {t}
      ensures RequestsPending(tcb, runtsk, dspflg)
      ensures !dspflg ==> schedtsk == runtsk && runtsk.Some? && runtsk.value < |tcb| && tcb[runtsk.value].tstat.Runnable?
    {
      hide SchedInv, PrioritiesOk, MutexesOk, WaitersOk;
      TaskFacts(t, {}, {}, {});
      EndWait(t, E_OK, {t}, {}, {});
    }

    /** The wakeup request of a task that does not sleep. */
    method NoteWakeup(t: TaskId)
      requires Inv() && t < |tcb| && !tcb[t].tstat.Dormant?
      modifies this`tcb
      ensures Inv() && tcb == old(tcb)[t := old(tcb[t]).(wupque := true)]
    {
      hide SchedInv, PrioritiesOk, MutexesOk, WaitersOk, StatesOk;
      TaskFacts(t, {}, {}, {});
      tcb := tcb[t := tcb[t].(wupque := true)];
      OneTask(t, old(tcb), old(place), old(timers), {}, {}, {}, {});
    }

    /** wup_tsk */
    method WupTsk(t: TaskId) returns (ercd: Error)
      requires Inv() && t < |tcb|
      modifies this`tcb, this`sched, this`schedtsk, this`place, this`timers, this`runtsk
      ensures Inv()
      ensures var x := old(tcb[t]);
              if x.tstat.Dormant? then ercd == E_OBJ && tcb == old(tcb)
              else if x.tstat.Waiting? && x.tstat.cause.Sleep? then
                ercd == E_OK && Released(old(tcb), tcb, [t], E_OK) && timers == old(timers) - {t}
              else if !x.wupque then ercd == E_OK && tcb == old(tcb)[t := x.(wupque := true)]
              else ercd == E_QOVR && tcb == old(tcb)
      ensures !(old(tcb[t]).tstat.Waiting? && old(tcb[t]).tstat.cause.Sleep?) ==> sched == old(sched) && timers == old(timers)
    {
      hide SchedInv, PrioritiesOk, MutexesOk, WaitersOk, StatesOk, StateOk, EndedWait;
      TaskFacts(t, {}, {}, {});
      if tcb[t].tstat.Dormant? {
        ercd := E_OBJ;
      } else if tcb[t].tstat.Waiting? && tcb[t].tstat.cause.Sleep? {
        WakeUp(t);
        Dispatch();
        ercd := E_OK;
      } else if !tcb[t].wupque {
        NoteWakeup(t);
        ercd := E_OK;
      } else {
        ercd := E_QOVR;
      }
    }

    /** sus_tsk */
    method SusTsk(t: TaskId) returns (ercd: Error)
      requires Inv() && t < |tcb| && runtsk.Some?
      modifies this`tcb, this`sched, this`schedtsk, this`place, this`runtsk
      ensures Inv()
      ensures var x := old(tcb[t]);
              if Some(t) == old(runtsk) && !dspflg then ercd == E_CTX && tcb == old(tcb)
              else if x.tstat.Dormant? then ercd == E_OBJ && tcb == old(tcb)
              else if x.raster then ercd == E_RASTER && tcb == old(tcb)
              else if x.tstat.Runnable? then ercd == E_OK && tcb == old(tcb)[t := x.(tstat := Suspended)]
              else if x.tstat.Suspended? || x.tstat.suspended then ercd == E_QOVR && tcb == old(tcb)
              else ercd == E_OK && tcb == old(tcb)[t := x.(tstat := Waiting(x.tstat.cause, true))]
    {
      hide SchedInv, PrioritiesOk, MutexesOk, WaitersOk, StatesOk;
      TaskFacts(t, {}, {}, {});
      if Some(t) == runtsk && !dspflg {
        ercd := E_CTX;
      } else if tcb[t].tstat.Dormant? {
        ercd := E_OBJ;
      } else if tcb[t].raster {
        ercd := E_RASTER;
      } else if tcb[t].tstat.Runnable? {
        tcb := tcb[t := tcb[t].(tstat := Suspended)];
        MakeNonRunnable(t);
        OneTask(t, old(tcb), old(place), old(timers), {}, {}, {}, {});
        Dispatch();
        ercd := E_OK;
      } else if tcb[t].tstat.Suspended? || tcb[t].tstat.suspended {
        ercd := E_QOVR;
      } else {
        tcb := tcb[t := tcb[t].(tstat := Waiting(tcb[t].tstat.cause, true))];
        OneTask(t, old(tcb), old(place), old(timers), {}, {}, {}, {});
        ercd := E_OK;
      }
    }

    /** rsm_tsk */
    method RsmTsk(t: TaskId) returns (ercd: Error)
      requires Inv() && t < |tcb| && runtsk.Some?
      modifies this`tcb, this`sched, this`schedtsk, this`place, this`runtsk
      ensures Inv()
      ensures var x := old(tcb[t]);
              if x.tstat.Suspended? then ercd == E_OK && tcb == old(tcb)[t := x.(tstat := Runnable)]
              else if x.tstat.Waiting? && x.tstat.suspended then
                ercd == E_OK && tcb == old(tcb)[t := x.(tstat := Waiting(x.tstat.cause, false))]
              else ercd == E_OBJ && tcb == old(tcb)
    {
      hide SchedInv, PrioritiesOk, MutexesOk, WaitersOk, StatesOk;
      TaskFacts(t, {}, {}, {});
      if !(tcb[t].tstat.Suspended? || (tcb[t].tstat.Waiting? && tcb[t].tstat.suspended)) {
        ercd := E_OBJ;
      } else {
        if !tcb[t].tstat.Waiting? {
          tcb := tcb[t := tcb[t].(tstat := Runnable)];
          MakeRunnable(t);
          OneTask(t, old(tcb), old(place), old(timers), {}, {}, {}, {});
          Dispatch();
        } else {
          tcb := tcb[t := tcb[t].(tstat := Waiting(tcb[t].tstat.cause, false))];
          OneTask(t, old(tcb), old(place), old(timers), {}, {}, {}, {});
        }
        ercd := E_OK;
      }
    }

    /** wait_dequeue_wobj: takes a waiting task out of the queue of the object it waits for. When a
        sender leaves a message buffer, senders behind it may find room. */
    method WaitDequeueWobj(t: TaskId, room: nat)
      requires Mid({}, {}, {}) && t < |tcb| && tcb[t].tstat.Waiting?
      modifies this`tcb, this`wq, this`sched, this`schedtsk, this`place, this`timers
      ensures Mid({t}, {}, {}) && t < |tcb| == |old(tcb)| == |place| && place[t] == Nowhere
      ensures tcb[t] == old(tcb[t]) && tcb[t].winfo.Event? && !tcb[t].raster && (t in timers <==> tcb[t].winfo.registered)
      ensures LeftQueue(old(tcb), tcb, old(wq), wq, cfg, t, room)
      ensures timers <= old(timers)
      ensures !dspflg ==> schedtsk == old(schedtsk)
    {
      hide SchedInv, PriorityOk, MutexesOk, WaitersOk;
      TaskFacts(t, {}, {}, {});
      if tcb[t].tstat.cause.Object? {
        var q := tcb[t].tstat.cause.q;
        WaitPlace(t);
        QueueDistinct(q);
        WithoutHolds(wq[q], t);
        Unlink(t, {}, {}, {});
        ReleasedNone(tcb, E_OK);
        if cfg.kind[q] == SMBF {
          MbfSignal(q, room, {t}, {}, {});
        }
      }
    }

    /** A task that waits for an object waits in an existing queue. */
    lemma WaitPlace(t: TaskId)
      requires Mid({}, {}, {}) && t < |tcb| && tcb[t].tstat.Waiting? && tcb[t].tstat.cause.Object?
      ensures tcb[t].tstat.cause.q < |wq|
    {
    }

    /** The end of a wait takes no task's ability to run and no request for termination away. */
    lemma EndedAloneRuns(t: TaskId, room: nat, ercd: Error, wq0: seq<seq<TaskId>>, tcb0: seq<Tcb>)
      requires EndedAlone(tcb0, tcb, wq0, wq, cfg, t, room, ercd) && RequestsPending(tcb0, runtsk, dspflg)
      ensures |tcb| == |tcb0| && RequestsPending(tcb, runtsk, dspflg)
      ensures forall x: TaskId :: x < |tcb| && tcb0[x].tstat.Runnable? ==> tcb[x].tstat.Runnable?
    {
      var tcb1 := tcb[t := tcb0[t]];
      forall x: TaskId | x < |tcb0|
        ensures tcb[x].raster == tcb0[x].raster && tcb[x].enater == tcb0[x].enater
        ensures tcb0[x].tstat.Runnable? ==> tcb[x].tstat.Runnable?
      {
        assert x != t ==> tcb1[x] == tcb[x];
      }
    }

    /** What the end of a wait does to the queue: the task leaves it, and if it was sending to a message
        buffer the next senders go on that find room. */
    lemma SendersGoOn(t: TaskId, room: nat, ercd: Error, wq0: seq<seq<TaskId>>, tcb0: seq<Tcb>)
      requires EndedAlone(tcb0, tcb, wq0, wq, cfg, t, room, ercd) && (forall q: nat :: q < |wq0| ==> InRange(wq0[q], |tcb0|) && Distinct(wq0[q]))
      ensures |tcb| == |tcb0| && tcb[t].tstat == (if tcb0[t].tstat.suspended then Suspended else Runnable) && tcb[t].winfo == Wercd(ercd)
      ensures tcb0[t].tstat.cause.Object? ==>
        var q := tcb0[t].tstat.cause.q;
        && q < |wq0| <= |cfg.kind|
        && var s := Without(wq0[q], t);
           var k := if cfg.kind[q] != SMBF then 0 else if room < |s| then room else |s|;
           && wq == wq0[q := s[k..]]
           && forall i :: 0 <= i < k ==> s[i] < |tcb| && s[i] != t && tcb0[s[i]].tstat.Waiting? && tcb[s[i]].winfo == Wercd(E_OK)
    {
      hide Distinct;
      if tcb0[t].tstat.cause.Object? {
        var q := tcb0[t].tstat.cause.q;
        var s := Without(wq0[q], t);
        var k := if cfg.kind[q] != SMBF then 0 else if room < |s| then room else |s|;
        WithoutHolds(wq0[q], t);
        var tcb1 := tcb[t := tcb0[t]];
        forall i | 0 <= i < k
          ensures s[i] < |tcb| && s[i] != t && tcb0[s[i]].tstat.Waiting? && tcb[s[i]].winfo == Wercd(E_OK)
        {
          assert s[i] in s && s[i] in wq0[q] && s[i] in s[..k];
          assert tcb1[s[i]] == tcb[s[i]];
        }
      }
    }

    /** The wait queues hold tasks, each once. */
    lemma QueuesHoldTasks()
      requires Mid({}, {}, {})
      ensures forall q: nat :: q < |wq| ==> InRange(wq[q], |tcb|) && Distinct(wq[q])
    {
      hide ReadyQueues, WaitOrder, Caches, Select, PrioritiesOk, MutexesOk, WaitersOk, Distinct;
      forall q: nat | q < |wq|
        ensures InRange(wq[q], |tcb|) && Distinct(wq[q])
      {
        WaitFacts(wq, place, q);
      }
    }

    /** rel_wai */
    method RelWai(t: TaskId, room: nat) returns (ercd: Error)
      requires Inv() && t < |tcb|
      modifies this`tcb, this`wq, this`sched, this`schedtsk, this`place, this`timers, this`runtsk
      ensures Inv() && ercd == if old(tcb[t]).tstat.Waiting? then E_OK else E_OBJ
      ensures ercd == E_OK ==>
        && EndedAlone(old(tcb), tcb, old(wq), wq, cfg, t, room, E_RLWAI) && timers <= old(timers) - {t}
        && |tcb| == |old(tcb)| && tcb[t].tstat == (if old(tcb[t]).tstat.suspended then Suspended else Runnable)
        && tcb[t].winfo == Wercd(E_RLWAI)
      ensures ercd == E_OK && old(tcb[t]).tstat.cause.Object? ==>
        var q := old(tcb[t]).tstat.cause.q;
        && q < |old(wq)| <= |cfg.kind|
        && var s := Without(old(wq[q]), t);
           var k := if cfg.kind[q] != SMBF then 0 else if room < |s| then room else |s|;
           && wq == old(wq)[q := s[k..]]
           && forall i :: 0 <= i < k ==> s[i] < |tcb| && s[i] != t && old(tcb[s[i]]).tstat.Waiting? && tcb[s[i]].winfo == Wercd(E_OK)
      ensures ercd == E_OBJ ==> tcb == old(tcb) && wq == old(wq) && timers == old(timers) && sched == old(sched)
    {
      hide Mid, EndedAlone, RequestsPending, Without;
      if !tcb[t].tstat.Waiting? {
        ercd := E_OBJ;
      } else {
        QueuesHoldTasks();
        EndWaiting(t, room, E_RLWAI);
        EndedAloneRuns(t, room, E_RLWAI, old(wq), old(tcb));
        SendersGoOn(t, room, E_RLWAI, old(wq), old(tcb));
        Dispatch();
        ercd := E_OK;
      }
    }

    /** The end of a wait before its time. */
    method EndWaiting(t: TaskId, room: nat, ercd: Error)
      requires Mid({}, {}, {}) && t < |tcb| && tcb[t].tstat.Waiting?
      modifies this`tcb, this`wq, this`sched, this`schedtsk, this`place, this`timers
      ensures Mid({}, {}, {}) && EndedAlone(old(tcb), tcb, old(wq), wq, cfg, t, room, ercd) && timers <= old(timers) - {t}
      ensures !dspflg ==> schedtsk == old(schedtsk)
    {
      hide Mid, LeftQueue;
      WaitDequeueWobj(t, room);
      ghost var mid := tcb;
      EndWait(t, ercd, {t}, {}, {});
      assert tcb[t := old(tcb[t])] == mid;
      assert {t} - {t} == {};
    }

    /** The end of a wait whose time event has gone off and is in the heap no more. */
    method EndAfterTimeout(t: TaskId, ercd: Error)
      requires Mid({t}, {}, {}) && t < |tcb| && place[t] == Nowhere
      requires tcb[t].tstat.Waiting? && !tcb[t].raster && tcb[t].winfo == Event(true)
      modifies this`tcb, this`sched, this`schedtsk, this`place, this`timers
      ensures Mid({}, {}, {}) && timers == old(timers) - {t}
      ensures tcb == old(tcb)[t := EndedWait(old(tcb[t]), ercd)]
      ensures !dspflg ==> schedtsk == old(schedtsk)
    {
      hide SchedInv, StateOk, PriorityOk, MutexesOk, WaitersOk;
      timers := timers - {t};
      SetWercd(t, ercd);
      MakeNonWait(t, {t}, {}, {});
    }

    lemma TimerFacts(t: TaskId)
      requires Mid({}, {}, {}) && t in timers
      ensures t < |tcb| && tcb[t].tstat.Waiting? && tcb[t].winfo == Event(true)
    {
    }

    /** wait_tmout and wait_tmout_ok: the time event of a task has been taken from the heap because it
        is due. */
    method Timeout(t: TaskId, room: nat)
      requires Inv() && t in timers
      modifies this`tcb, this`wq, this`sched, this`schedtsk, this`place, this`timers, this`runtsk
      ensures Inv() && t < |old(tcb)| && old(tcb[t]).tstat.Waiting?
      ensures EndedAlone(old(tcb), tcb, old(wq), wq, cfg, t, room, if old(tcb[t]).tstat.cause.Delay? then E_OK else E_TMOUT)
      ensures timers <= old(timers) - {t}
      ensures |tcb| == |old(tcb)| && tcb[t].tstat == (if old(tcb[t]).tstat.suspended then Suspended else Runnable)
      ensures tcb[t].winfo == Wercd(if old(tcb[t]).tstat.cause.Delay? then E_OK else E_TMOUT)
      ensures old(tcb[t]).tstat.cause.Object? ==>
        var q := old(tcb[t]).tstat.cause.q;
        && q < |old(wq)| <= |cfg.kind|
        && var s := Without(old(wq[q]), t);
           var k := if cfg.kind[q] != SMBF then 0 else if room < |s| then room else |s|;
           && wq == old(wq)[q := s[k..]]
           && forall i :: 0 <= i < k ==> s[i] < |tcb| && s[i] != t && old(tcb[s[i]]).tstat.Waiting? && tcb[s[i]].winfo == Wercd(E_OK)
    {
      hide Mid, EndedAlone, RequestsPending, Without;
      TimerFacts(t);
      var ercd := if tcb[t].tstat.cause.Delay? then E_OK else E_TMOUT;
      QueuesHoldTasks();
      EndTimedOut(t, room, ercd);
      EndedAloneRuns(t, room, ercd, old(wq), old(tcb));
      SendersGoOn(t, room, ercd, old(wq), old(tcb));
      Dispatch();
    }

    /** The end of a wait that has timed out. */
    method EndTimedOut(t: TaskId, room: nat, ercd: Error)
      requires Mid({}, {}, {}) && t in timers && t < |tcb| && tcb[t].tstat.Waiting? && tcb[t].winfo == Event(true)
      modifies this`tcb, this`wq, this`sched, this`schedtsk, this`place, this`timers
      ensures Mid({}, {}, {}) && EndedAlone(old(tcb), tcb, old(wq), wq, cfg, t, room, ercd) && timers <= old(timers) - {t}
      ensures !dspflg ==> schedtsk == old(schedtsk)
    {
      hide Mid, LeftQueue;
      WaitDequeueWobj(t, room);
      ghost var mid := tcb;
      EndAfterTimeout(t, ercd);
      assert tcb[t := old(tcb[t])] == mid;
    }

    /** A wait for an object other than a mutex, after the object has been found unavailable. */
    method WaitForObject(q: nat, tmo: Tmo) returns (ercd: Option<Error>)
      requires Inv() && runtsk.Some? && dspflg && |mtx| <= q < |wq|
      modifies this`tcb, this`wq, this`sched, this`schedtsk, this`place, this`timers, this`runtsk
      ensures Inv()
      ensures var t := old(runtsk.value); var x := old(tcb[t]);
              if x.raster then ercd == Some(E_RASTER) && tcb == old(tcb)
              else if tmo.Poll? then ercd == Some(E_TMOUT) && tcb == old(tcb)
              else ercd == None && tcb == old(tcb)[t := x.(tstat := Waiting(Object(q), false), winfo := Event(tmo.Finite?))]
      ensures ercd.Some? ==> wq == old(wq) && timers == old(timers) && sched == old(sched)
      ensures ercd == None ==>
        && old(runtsk.value) < |pri| && InRange(old(wq[q]), |pri|)
        && wq == old(wq)[q := Joined(old(wq[q]), old(runtsk.value), pri, cfg.tpri[q])]
        && (!cfg.tpri[q] ==> wq[q] == old(wq[q]) + [old(runtsk.value)])
        && (cfg.tpri[q] ==> wq[q] == InsertAt(old(wq[q]), PriorityPlace(PrioritiesOf(old(wq[q]), pri), pri[old(runtsk.value)]), old(runtsk.value)))
        && timers == old(timers) + if tmo.Finite? then {old(runtsk.value)} else {}
    {
      hide SchedInv, StateOk, PriorityOk, MutexesOk, WaitersOk;
      if tcb[runtsk.value].raster {
        ercd := Some(E_RASTER);
      } else if tmo.Poll? {
        ercd := Some(E_TMOUT);
      } else {
        WobjMakeWait(q, tmo.Finite?);
        Dispatch();
        ercd := None;
      }
    }

    /** An object becomes available to the first task that waits for it. */
    method SignalObject(q: nat)
      requires Inv() && |mtx| <= q < |wq| && wq[q] != []
      modifies this`tcb, this`wq, this`sched, this`schedtsk, this`place, this`timers, this`runtsk
      ensures Inv()
      ensures Released(old(tcb), tcb, [old(wq[q][0])], E_OK) && wq == old(wq)[q := old(wq[q])[1..]]
      ensures timers == old(timers) - {old(wq[q][0])}
    {
      hide SchedInv, StateOk, PriorityOk, MutexesOk, WaitersOk;
      ReleaseHead(q, E_OK, {}, {}, {});
      RunningStays();
      Dispatch();
    }

    /** First come, first served: the running task waits for an object without priorities for which nobody
        waits, then the one that runs next does, and then the object is signalled twice. */
    method WaitInTurn(q: nat) returns (waited: nat, first: TaskId, second: TaskId, order: seq<TaskId>)
      requires Inv() && runtsk.Some? && dspflg && |mtx| <= q < |wq| == |cfg.tpri| && !cfg.tpri[q] && wq[q] == []
      modifies this`tcb, this`wq, this`sched, this`schedtsk, this`place, this`timers, this`runtsk
      ensures Inv() && first == old(runtsk.value) && waited <= 2
      ensures waited == 0 ==> old(tcb[first].raster)
      ensures waited == 2 ==> order == [first, second] && wq == old(wq)
    {
      hide Mid, Released, Joined;
      waited, first, second, order := 0, runtsk.value, runtsk.value, [];
      var e1 := WaitForObject(q, Forever);
      if e1.Some? {
        return;
      }
      waited := 1;
      if runtsk == None {
        return;
      }
      second := runtsk.value;
      var e2 := WaitForObject(q, Forever);
      if e2.Some? {
        return;
      }
      waited := 2;
      assert wq[q] == [first, second];
      var head := wq[q][0];
      SignalObject(q);
      assert wq[q] == [second];
      order := [head, wq[q][0]];
      SignalObject(q);
      assert wq[q] == [];
    }

    /** init_wait_queue: all waits for an object end because the object is initialised anew. */
    method InitWaitQueue(q: nat)
      requires Mid({}, {}, {}) && q < |wq|
      modifies this`tcb, this`wq, this`sched, this`schedtsk, this`place, this`timers
      ensures Mid({}, {}, {})
      ensures Released(old(tcb), tcb, old(wq[q]), E_DLT) && wq == old(wq)[q := []]
      ensures timers <= old(timers)
      ensures !dspflg ==> schedtsk == old(schedtsk)
    {
      hide Mid, Released, EndedWait;
      ghost var k := 0;
      MidDistinct(q, {}, {}, {});
      ReleasedNone(tcb, E_DLT);
      while wq[q] != []
        invariant 0 <= k <= |old(wq[q])| && |wq| == |old(wq)| && |tcb| == |old(tcb)|
        invariant Mid({}, {}, {}) && timers <= old(timers)
        invariant Released(old(tcb), tcb, old(wq[q])[..k], E_DLT) && wq == old(wq)[q := old(wq[q])[k..]]
        invariant !dspflg ==> schedtsk == old(schedtsk)
        decreases |wq[q]|
      {
        ghost var was := tcb;
        assert wq[q][0] == old(wq[q])[k];
        ReleaseHead(q, E_DLT, {}, {}, {});
        ReleasedOneMore(old(tcb), was, old(wq[q]), k, E_DLT);
        k := k + 1;
      }
      assert old(wq[q])[..k] == old(wq[q]);
    }

    /** wait_complete, for a task anywhere in the queue of an object. */
    method ReleaseFrom(q: nat, t: TaskId)
      requires Mid({}, {}, {}) && q < |wq| && t in wq[q]
      modifies this`tcb, this`wq, this`sched, this`schedtsk, this`place, this`timers
      ensures Mid({}, {}, {}) && wq == old(wq)[q := Without(old(wq[q]), t)]
      ensures t < |old(tcb)| && old(tcb[t]).tstat.Waiting? && tcb == old(tcb)[t := EndedWait(old(tcb[t]), E_OK)]
      ensures timers == old(timers) - {t}
      ensures !dspflg ==> schedtsk == old(schedtsk)
    {
      hide SchedInv, PriorityOk, MutexesOk, WaitersOk, Without;
      QueueDistinct(q);
      TaskFacts(t, {}, {}, {});
      Unlink(t, {}, {}, {});
      assert {} + {t} == {t} && {t} - {t} == {};
      EndWait(t, E_OK, {t}, {}, {});
    }

    /** One step of the loop of set_flg. */
    method ReleaseIfChosen(q: nat, s: seq<TaskId>, i: nat, chosen: set<TaskId>, ghost tcb0: seq<Tcb>, ghost wq0: seq<seq<TaskId>>)
      requires Mid({}, {}, {}) && q < |wq| == |wq0| && Distinct(s) && i < |s|
      requires wq == wq0[q := Kept(s[..i], chosen) + s[i..]] && Released(tcb0, tcb, Taken(s[..i], chosen), E_OK)
      modifies this`tcb, this`wq, this`sched, this`schedtsk, this`place, this`timers
      ensures Mid({}, {}, {}) && wq == wq0[q := Kept(s[..i + 1], chosen) + s[i + 1..]]
      ensures Released(tcb0, tcb, Taken(s[..i + 1], chosen), E_OK)
      ensures timers <= old(timers)
      ensures !dspflg ==> schedtsk == old(schedtsk)
    {
      hide Mid, Released, EndedWait, Kept, Taken, Distinct;
      KeptOne(s, i, chosen);
      if s[i] in chosen {
        ReleaseFrom(q, s[i]);
        ReleasedAnother(tcb0, old(tcb), Taken(s[..i], chosen), s[i], E_OK);
      }
    }

    /** The loop of set_flg: the tasks whose conditions are met, those of chosen, leave the queue wherever
        they are in it. The others keep their order. */
    method ReleaseChosen(q: nat, chosen: set<TaskId>)
      requires Mid({}, {}, {}) && q < |wq|
      modifies this`tcb, this`wq, this`sched, this`schedtsk, this`place, this`timers
      ensures Mid({}, {}, {}) && wq == old(wq)[q := Kept(old(wq[q]), chosen)]
      ensures Released(old(tcb), tcb, Taken(old(wq[q]), chosen), E_OK)
      ensures timers <= old(timers)
      ensures !dspflg ==> schedtsk == old(schedtsk)
    {
      hide Mid, Released, EndedWait, Kept, Taken;
      var s := wq[q];
      MidDistinct(q, {}, {}, {});
      ReleasedNone(tcb, E_OK);
      KeptNone(s, chosen);
      var i := 0;
      while i < |s|
        invariant i <= |s| && |wq| == |old(wq)|
        invariant Mid({}, {}, {}) && timers <= old(timers)
        invariant Released(old(tcb), tcb, Taken(s[..i], chosen), E_OK)
        invariant wq == old(wq)[q := Kept(s[..i], chosen) + s[i..]]
        invariant !dspflg ==> schedtsk == old(schedtsk)
      {
        ReleaseIfChosen(q, s, i, chosen, old(tcb), old(wq));
        i := i + 1;
      }
      assert s[..i] == s && Kept(s, chosen) + s[i..] == Kept(s, chosen);
    }

    /** What an event flag does to the tasks in set_flg. */
    method SignalChosen(q: nat, chosen: set<TaskId>)
      requires Inv() && |mtx| <= q < |wq|
      modifies this`tcb, this`wq, this`sched, this`schedtsk, this`place, this`timers, this`runtsk
      ensures Inv() && wq == old(wq)[q := Kept(old(wq[q]), chosen)]
      ensures Released(old(tcb), tcb, Taken(old(wq[q]), chosen), E_OK) && timers <= old(timers)
    {
      hide SchedInv, StatesOk, PrioritiesOk, MutexesOk, WaitersOk, Released, Kept, Taken;
      ReleaseChosen(q, chosen);
      ReleasedRuns(old(tcb), Taken(old(wq[q]), chosen), E_OK);
      Dispatch();
    }

    /** What a message buffer does to the tasks that are blocked sending when room becomes available in
        it: in a reception, or when a sender ahead of them stops waiting. */
    method SignalSenders(q: nat, room: nat)
      requires Inv() && q < |wq| && cfg.kind[q] == SMBF
      modifies this`tcb, this`wq, this`sched, this`schedtsk, this`place, this`timers, this`runtsk
      ensures Inv()
      ensures var k := if room < |old(wq[q])| then room else |old(wq[q])|;
              Released(old(tcb), tcb, old(wq[q])[..k], E_OK) && wq == old(wq)[q := old(wq[q])[k..]]
      ensures timers <= old(timers)
    {
      hide SchedInv, StatesOk, PrioritiesOk, MutexesOk, WaitersOk, Released;
      MbfSignal(q, room, {}, {}, {});
      ReleasedRuns(old(tcb), old(wq[q])[..if room < |old(wq[q])| then room else |old(wq[q])|], E_OK);
      Dispatch();
    }

    /** What the initialisation of an object other than a mutex does to the tasks: ini_sem, ini_flg and
        ini_mpf end the waits in its queue, ini_dtq, ini_pdq and ini_mbf those of the senders and then
        those of the receivers. */
    method InitObject(q: nat, receivers: Option<nat>)
      requires Inv() && |mtx| <= q < |wq| && (receivers.Some? ==> |mtx| <= receivers.value < |wq| && receivers.value != q)
      modifies this`tcb, this`wq, this`sched, this`schedtsk, this`place, this`timers, this`runtsk
      ensures Inv() && timers <= old(timers)
      ensures if receivers == None
              then wq == old(wq)[q := []] && Released(old(tcb), tcb, old(wq[q]), E_DLT)
              else wq == old(wq)[q := []][receivers.value := []]
                   && Released(old(tcb), tcb, old(wq[q]) + old(wq[receivers.value]), E_DLT)
    {
      hide SchedInv, StatesOk, PrioritiesOk, MutexesOk, WaitersOk, Released;
      InitWaitQueue(q);
      ghost var tcb1 := tcb;
      ghost var s := old(wq[q]);
      if receivers.Some? {
        InitWaitQueue(receivers.value);
        ReleasedTwice(old(tcb), tcb1, tcb, s, old(wq[receivers.value]), E_DLT);
        s := s + old(wq[receivers.value]);
      }
      ReleasedRuns(old(tcb), s, E_DLT);
      Dispatch();
    }

    // ---------- Mutexes ----------

    /** mutex_calc_priority: walks the chain of the task's mutexes. */
    method MutexCalcPriority(t: TaskId) returns (priority: nat)
      requires t < |tcb| == |lastmtx| == |held| && Chain(lastmtx[t], held[t], mtx) && |mtx| == |cfg.ceil|
      ensures priority == CeilPri(tcb[t].bpri, held[t], cfg.ceil)
    {
      priority := tcb[t].bpri;
      var cur := lastmtx[t];
      ghost var i := 0;
      CeilPriIsLeast(tcb[t].bpri, held[t], cfg.ceil);
      while cur.Some?
        invariant i <= |held[t]| && cur == if i < |held[t]| then Some(held[t][i]) else None
        invariant priority <= tcb[t].bpri
        invariant forall j :: 0 <= j < i && HasCeiling(held[t][j], cfg.ceil) ==> priority <= cfg.ceil[held[t][j]].value
        invariant priority == tcb[t].bpri
          || exists j :: 0 <= j < i && HasCeiling(held[t][j], cfg.ceil) && priority == cfg.ceil[held[t][j]].value
        decreases |held[t]| - i
      {
        ChainNext(lastmtx[t], held[t], mtx, i);
        var m := cur.value;
        if cfg.ceil[m].Some? && cfg.ceil[m].value < priority {
          priority := cfg.ceil[m].value;
        }
        cur := mtx[m].prev;
        i := i + 1;
      }
      assert i == |held[t]|;
      assert priority == tcb[t].bpri
          || exists m: MtxId :: m in held[t] && m < |cfg.ceil| && cfg.ceil[m].Some? && priority == cfg.ceil[m].value;
      CeilPriUnique(tcb[t].bpri, held[t], cfg.ceil, priority);
    }

    /** mutex_check_ceilpri: whether the base priority may be b, with the ceilings the task holds or
        waits for. */
    method MutexCheckCeilpri(t: TaskId, b: nat) returns (ok: bool)
      requires t < |tcb| == |lastmtx| == |held| && Chain(lastmtx[t], held[t], mtx) && |mtx| == |cfg.ceil|
      ensures ok <==> CeilingsAllow(tcb[t], b, held[t], cfg.ceil)
    {
      var cur := lastmtx[t];
      ghost var i := 0;
      while cur.Some?
        invariant i <= |held[t]| && cur == if i < |held[t]| then Some(held[t][i]) else None
        invariant forall j :: 0 <= j < i && HasCeiling(held[t][j], cfg.ceil) ==> cfg.ceil[held[t][j]].value <= b
        decreases |held[t]| - i
      {
        ChainNext(lastmtx[t], held[t], mtx, i);
        var m := cur.value;
        if cfg.ceil[m].Some? && b < cfg.ceil[m].value {
          assert m in held[t];
          return false;
        }
        cur := mtx[m].prev;
        i := i + 1;
      }
      if tcb[t].tstat.Waiting? && tcb[t].tstat.cause.Object? && tcb[t].tstat.cause.q < |mtx| {
        var m := tcb[t].tstat.cause.q;
        if cfg.ceil[m].Some? && b < cfg.ceil[m].value {
          return false;
        }
      }
      ok := true;
    }

    /** mutex_scan_ceilmtx: whether the task holds a mutex with a ceiling. */
    method MutexScanCeilmtx(t: TaskId) returns (found: bool)
      requires t < |lastmtx| == |held| && Chain(lastmtx[t], held[t], mtx) && |mtx| == |cfg.ceil|
      ensures found <==> exists m: MtxId :: m in held[t] && HasCeiling(m, cfg.ceil)
    {
      var cur := lastmtx[t];
      ghost var i := 0;
      while cur.Some?
        invariant i <= |held[t]| && cur == if i < |held[t]| then Some(held[t][i]) else None
        invariant forall j :: 0 <= j < i ==> !HasCeiling(held[t][j], cfg.ceil)
        decreases |held[t]| - i
      {
        ChainNext(lastmtx[t], held[t], mtx, i);
        if cfg.ceil[cur.value].Some? {
          assert cur.value in held[t];
          return true;
        }
        cur := mtx[cur.value].prev;
        i := i + 1;
      }
      found := false;
    }

    /** Sets the priority of a task that is in no queue. */
    method SetPriority(t: TaskId, newpri: nat)
      requires SchedInv() && t < |pri| && newpri < TNUM_TPRI && place[t] == Nowhere
      modifies this`pri
      ensures SchedInv() && pri == old(pri)[t := newpri]
    {
      hide ReadyQueues, UnitQueues, IsReadyQueue, WaitQueues, IsWaitQueue, WaitOrder, ConfigOk, CacheOk, Caches, Select, Distinct, BitsOk;
      pri := pri[t := newpri];
      assert place[t := place[t]] == place;
      ReadyIgnores(sched, place, old(pri), cfg.unit, t, place[t], newpri);
      SelectIgnores(sched, place, old(pri), cfg.unit, t, newpri, twdsched, idlesched);
      WaitOrderIgnores(wq, place, cfg.tpri, old(pri), t, newpri);
    }

    /** Task t is ahead of all other tasks of its unit and priority, or behind them. */
    ghost predicate FirstOfPriority(t: TaskId)
      reads `pri, `sched
    {
      && t < |pri| && t < |cfg.unit| && cfg.unit[t] < |sched| && pri[t] < |sched[cfg.unit[t]].queue|
      && var q := sched[cfg.unit[t]].queue[pri[t]]; q != [] && q[0] == t
    }

    ghost predicate LastOfPriority(t: TaskId)
      reads `pri, `sched
    {
      && t < |pri| && t < |cfg.unit| && cfg.unit[t] < |sched| && pri[t] < |sched[cfg.unit[t]].queue|
      && var q := sched[cfg.unit[t]].queue[pri[t]]; q != [] && q[|q| - 1] == t
    }

    lemma StaysFirst(t: TaskId, pri0: seq<nat>, sched0: seq<Schedcb>)
      requires t < |pri| == |pri0| && t < |cfg.unit| && pri[t] == pri0[t] && cfg.unit[t] < |sched0| && pri0[t] < |sched0[cfg.unit[t]].queue|
      requires var q := sched0[cfg.unit[t]].queue[pri0[t]]; q != [] && q[0] == t
      requires QueuesGrow(sched0, sched)
      ensures FirstOfPriority(t)
    {
      assert sched0[cfg.unit[t]].queue[pri0[t]] <= sched[cfg.unit[t]].queue[pri[t]];
    }

    /** change_priority within the whole invariant. */
    method ChangePriorityOf(t: TaskId, newpri: nat, mtxmode: bool, ghost out: set<TaskId>, ghost outPri: set<TaskId>, ghost loose: set<MtxId>)
      requires Mid(out, outPri, loose) && t < |tcb| && t !in out && newpri < TNUM_TPRI
      modifies this`pri, this`sched, this`schedtsk, this`wq
      ensures Mid(out, outPri + {t}, loose)
      ensures pri == old(pri)[t := newpri] && Requeued(old(wq), wq, cfg.tpri, pri, PlaceOf(tcb[t].tstat), t)
      ensures Reordered(old(sched), sched, cfg.unit, tcb[t].tstat, t, old(pri[t]), newpri, mtxmode)
      ensures !dspflg ==> schedtsk == old(schedtsk)
      ensures newpri < old(pri[t]) && old(schedtsk) == Some(t) && tcb[t].tstat.Runnable? ==> schedtsk == Some(t)
      ensures tcb[t].tstat.Runnable? ==> if mtxmode then FirstOfPriority(t) else LastOfPriority(t)
    {
      hide PriorityOk, MutexesOk, WaitersOk, ReadyQueues, WaitOrder, Caches, Select;
      TaskFacts(t, out, outPri, loose);
      UnitOf(t);
      MovedIs(sched[cfg.unit[t]].queue, t, pri[t], newpri, mtxmode);
      ChangePriority(t, newpri, mtxmode);
      WaitersRequeued(old(wq), wq, place, cfg.tpri, pri, t, mtx);
      if dspflg && newpri < old(pri[t]) && old(schedtsk) == Some(t) && tcb[t].tstat.Runnable? {
        SelectRaised(old(sched), sched, place, old(pri), cfg.unit, t, newpri, mtxmode, twdsched, idlesched);
      }
    }

    /** mutex_drop_priority: the task has just given up mutex m, and with it perhaps a ceiling. */
    method MutexDropPriority(t: TaskId, m: MtxId, ghost loose: set<MtxId>)
      requires Mid({}, {t}, loose) && t < |tcb| && m < |mtx|
      requires CeilingsOk(tcb[t].bpri, held[t], cfg.ceil)
      requires pri[t] == WithCeiling(CeilPri(tcb[t].bpri, held[t], cfg.ceil), m, cfg.ceil)
      modifies this`pri, this`sched, this`schedtsk, this`wq
      ensures Mid({}, {}, loose)
      ensures pri == old(pri)[t := CeilPri(tcb[t].bpri, held[t], cfg.ceil)]
      ensures if pri[t] == old(pri[t]) then wq == old(wq) && sched == old(sched)
              else Requeued(old(wq), wq, cfg.tpri, pri, PlaceOf(tcb[t].tstat), t)
                   && Reordered(old(sched), sched, cfg.unit, tcb[t].tstat, t, old(pri[t]), pri[t], true)
      ensures pri[t] != old(pri[t]) && tcb[t].tstat.Runnable? ==> FirstOfPriority(t)
      ensures !dspflg ==> schedtsk == old(schedtsk)
    {
      hide SchedInv, StateOk, WaitersOk, FirstOfPriority;
      OwnChain(t, {}, {t}, loose);
      CeilPriInRange(tcb[t].bpri, held[t], cfg.ceil);
      if cfg.ceil[m].Some? && cfg.ceil[m].value == pri[t] {
        var newpri := MutexCalcPriority(t);
        if newpri != pri[t] {
          ChangePriorityOf(t, newpri, true, {}, {t}, loose);
        }
      }
    }

    /** The chain that starts at a task's last mutex lists the mutexes it holds. */
    lemma OwnChain(t: TaskId, out: set<TaskId>, outPri: set<TaskId>, loose: set<MtxId>)
      requires Mid(out, outPri, loose) && t < |tcb|
      ensures |tcb| == |pri| == |place| == |held| == |lastmtx| && |mtx| == |cfg.ceil|
      ensures HoldsExactly(t, lastmtx[t], held[t], mtx, loose) && tcb[t].bpri < TNUM_TPRI
      ensures lastmtx[t].Some? <==> held[t] != []
    {
    }

    lemma MutexQueues(out: set<TaskId>, outPri: set<TaskId>, loose: set<MtxId>)
      requires Mid(out, outPri, loose)
      ensures |mtx| == |cfg.ceil| <= |wq|
    {
    }

    /** A task that is in no queue gets mutex m, which was taken off another chain or free, on top of
        its own chain. Its priority is raised to the ceiling. */
    method TakeOver(t: TaskId, m: MtxId, ghost out: set<TaskId>, ghost outPri: set<TaskId>)
      requires Mid(out, outPri, {m}) && t < |tcb| && m < |mtx| && t in out && place[t] == Nowhere
      requires PriorityOk(tcb[t].bpri, pri[t], held[t], cfg.ceil) && (HasCeiling(m, cfg.ceil) ==> cfg.ceil[m].value <= tcb[t].bpri)
      requires WaitersOk(wq, mtx[m := Mtxcb(Some(t), lastmtx[t])])
      modifies this`pri, this`lastmtx, this`held, this`mtx
      ensures Mid(out, outPri - {t}, {})
      ensures lastmtx == old(lastmtx)[t := Some(m)] && mtx == old(mtx)[m := Mtxcb(Some(t), old(lastmtx[t]))]
      ensures held == old(held)[t := [m] + old(held[t])] && pri == old(pri)[t := WithCeiling(old(pri[t]), m, cfg.ceil)]
    {
      hide SchedInv, StateOk, PriorityOk, MutexesOk, WaitersOk;
      OwnChain(t, out, outPri, {m});
      MutexPush(lastmtx, held, mtx, t, m, {m});
      PriorityWith(tcb[t].bpri, pri[t], held[t], cfg.ceil, m);
      assert {m} - {m} == {};
      mtx := mtx[m := Mtxcb(Some(t), lastmtx[t])];
      lastmtx := lastmtx[t := Some(m)];
      held := held[t := [m] + held[t]];
      if cfg.ceil[m].Some? {
        if cfg.ceil[m].value < pri[t] {
          SetPriority(t, cfg.ceil[m].value);
        }
      }
    }

    lemma SomeWait(m: MtxId, out: set<TaskId>, outPri: set<TaskId>, loose: set<MtxId>)
      requires Mid(out, outPri, loose)
      ensures WaitersOk(wq, mtx)
    {
    }

    /** The first task that waits for a mutex. */
    lemma HeadFacts(m: MtxId, out: set<TaskId>, outPri: set<TaskId>, loose: set<MtxId>)
      requires Mid(out, outPri, loose) && m < |mtx| && m < |wq| && wq[m] != [] && outPri <= out
      requires forall t: TaskId :: t in out ==> t < |place| && place[t] == Nowhere
      ensures var t := wq[m][0];
              && t !in out && t < |tcb| == |place| == |pri| == |held| == |lastmtx| && |mtx| == |cfg.ceil|
              && tcb[t].tstat.Waiting? && tcb[t].tstat.cause == Object(m)
              && PriorityOk(tcb[t].bpri, pri[t], held[t], cfg.ceil) && (HasCeiling(m, cfg.ceil) ==> cfg.ceil[m].value <= tcb[t].bpri)
      ensures Distinct(wq[m])
    {
      hide PriorityOk, MutexesOk, WaitersOk, Without;
      QueueDistinct(m);
      var t := wq[m][0];
      assert t in wq[m];
      TaskFacts(t, out, outPri, loose);
    }

    /** mutex_release, when tasks wait for the mutex. */
    method HandOver(m: MtxId, ghost out: set<TaskId>, ghost outPri: set<TaskId>)
      requires Mid(out, outPri, {m}) && m < |mtx| && m < |wq| && wq[m] != [] && outPri <= out
      requires forall t: TaskId :: t in out ==> t < |place| && place[t] == Nowhere
      modifies this`tcb, this`pri, this`lastmtx, this`held, this`mtx, this`wq, this`sched, this`schedtsk, this`place, this`timers
      ensures Mid(out, outPri, {}) && forall t: TaskId :: t in out ==> t < |place| && place[t] == Nowhere
      ensures |tcb| == |old(tcb)| == |held| == |old(held)| == |pri| == |old(pri)|
      ensures forall t: TaskId :: t in out && t < |tcb| ==> tcb[t] == old(tcb[t]) && held[t] == old(held[t]) && pri[t] == old(pri[t])
      ensures PassedOn(m, cfg.ceil, old(mtx), mtx, old(wq), wq, old(tcb), tcb, old(pri), pri, old(held), held)
      ensures timers == old(timers) - {old(wq[m][0])}
      ensures QueuesGrow(old(sched), sched)
      ensures !dspflg ==> schedtsk == old(schedtsk)
    {
      hide Mid, WaitersOk, Without, PriorityOk, QueuesGrow;
      var t := wq[m][0];
      SomeWait(m, out, outPri, {m});
      HeadFacts(m, out, outPri, {m});
      WithoutHead(wq[m]);
      Unlink(t, out, outPri, {m});
      WaitersHanded(old(wq), wq, mtx, t, m, lastmtx[t]);
      SetResult(t, E_OK, out + {t}, outPri, {m});
      TakeOver(t, m, out + {t}, outPri);
      assert outPri - {t} == outPri;
      MakeNonWait(t, out + {t}, outPri, {});
      assert out + {t} - {t} == out;
    }

    /** mutex_release */
    method MutexRelease(m: MtxId, ghost out: set<TaskId>, ghost outPri: set<TaskId>)
      requires Mid(out, outPri, {m}) && m < |mtx| && m < |wq| && outPri <= out
      requires forall t: TaskId :: t in out ==> t < |place| && place[t] == Nowhere
      modifies this`tcb, this`pri, this`lastmtx, this`held, this`mtx, this`wq, this`sched, this`schedtsk, this`place, this`timers
      ensures Mid(out, outPri, {}) && forall t: TaskId :: t in out ==> t < |place| && place[t] == Nowhere
      ensures |tcb| == |old(tcb)| == |held| == |old(held)| == |pri| == |old(pri)|
      ensures forall t: TaskId :: t in out && t < |tcb| ==> tcb[t] == old(tcb[t]) && held[t] == old(held[t]) && pri[t] == old(pri[t])
      ensures PassedOn(m, cfg.ceil, old(mtx), mtx, old(wq), wq, old(tcb), tcb, old(pri), pri, old(held), held)
      ensures timers == old(timers) - if old(wq[m]) == [] then {} else {old(wq[m][0])}
      ensures QueuesGrow(old(sched), sched)
      ensures !dspflg ==> schedtsk == old(schedtsk)
    {
      hide SchedInv, StateOk, PriorityOk, MutexesOk, QueuesGrow;
      if wq[m] == [] {
        NothingMoves(sched);
        MutexFree(lastmtx, held, mtx, m, {m});
        assert {m} - {m} == {};
        mtx := mtx[m := mtx[m].(loctsk := None)];
      } else {
        HandOver(m, out, outPri);
      }
    }

    /** mutex_acquire: the running task locks a free mutex. The most urgent task gets no less urgent
        by that, so that no dispatching is needed. */
    method MutexAcquire(m: MtxId)
      requires Inv() && runtsk.Some? && m < |mtx| && mtx[m].loctsk == None
      requires HasCeiling(m, cfg.ceil) ==> cfg.ceil[m].value <= tcb[runtsk.value].bpri
      modifies this`pri, this`lastmtx, this`held, this`mtx, this`wq, this`sched, this`schedtsk
      ensures Inv() && runtsk == schedtsk && wq == old(wq)
      ensures var t := runtsk.value;
              && mtx == old(mtx)[m := Mtxcb(runtsk, old(lastmtx[t]))] && held == old(held)[t := [m] + old(held[t])]
              && lastmtx == old(lastmtx)[t := Some(m)]
              && pri == old(pri)[t := WithCeiling(old(pri[t]), m, cfg.ceil)]
              && (t < |old(pri)| && pri[t] != old(pri[t]) ==> FirstOfPriority(t))
    {
      hide Mid, PriorityOk, FirstOfPriority;
      var t := runtsk.value;
      MutexQueues({}, {}, {});
      OwnChain(t, {}, {}, {});
      CeilingInRange(m);
      PushMutex(m);
      if cfg.ceil[m].Some? && cfg.ceil[m].value < pri[t] {
        ChangePriorityOf(t, cfg.ceil[m].value, true, {}, {t}, {});
        RequeuedNot(old(wq), wq, cfg.tpri, pri, tcb[t].tstat, t);
        assert {t} + {t} == {t};
      }
      PriorityBack(t, {}, {t}, {});
      assert {t} - {t} == {};
    }

    /** The links in it. */
    method PushMutex(m: MtxId)
      requires Mid({}, {}, {}) && runtsk.Some? && runtsk.value < |tcb| && tcb[runtsk.value].tstat.Runnable?
      requires m < |mtx| && mtx[m].loctsk == None
      requires HasCeiling(m, cfg.ceil) ==> cfg.ceil[m].value <= tcb[runtsk.value].bpri
      modifies this`lastmtx, this`held, this`mtx
      ensures Mid({}, {runtsk.value}, {})
      ensures var t := runtsk.value;
              && t < |tcb| == |pri| == |held| == |old(held)| == |lastmtx| == |old(lastmtx)|
              && mtx == old(mtx)[m := Mtxcb(runtsk, old(lastmtx[t]))] && held == old(held)[t := [m] + old(held[t])]
              && lastmtx == old(lastmtx)[t := Some(m)]
              && PriorityOk(tcb[t].bpri, WithCeiling(pri[t], m, cfg.ceil), held[t], cfg.ceil)
    {
      hide SchedInv, PriorityOk, MutexesOk, WaitersOk, StatesOk, PrioritiesOk;
      var t := runtsk.value;
      OwnChain(t, {}, {}, {});
      TaskFacts(t, {}, {}, {});
      MutexPush(lastmtx, held, mtx, t, m, {});
      PriorityWith(tcb[t].bpri, pri[t], held[t], cfg.ceil, m);
      assert {} - {m} == {};
      WaitersAcquire(wq, mtx, m, Mtxcb(Some(t), lastmtx[t]));
      StatesHeld(tcb, place, timers, held, cfg.ipri, cfg.ceil, t, [m] + held[t]);
      mtx := mtx[m := Mtxcb(Some(t), lastmtx[t])];
      lastmtx := lastmtx[t := Some(m)];
      held := held[t := [m] + held[t]];
      PrioritiesUpdate(tcb, tcb, pri, pri, old(held), held, cfg.ceil, {}, {t}, t);
    }

    /** A task's priority is right again. */
    lemma PriorityBack(t: TaskId, out: set<TaskId>, outPri: set<TaskId>, loose: set<MtxId>)
      requires Mid(out, outPri, loose) && t < |tcb| == |pri| == |held| && PriorityOk(tcb[t].bpri, pri[t], held[t], cfg.ceil)
      ensures Mid(out, outPri - {t}, loose)
    {
      hide SchedInv, MutexesOk, WaitersOk, StatesOk;
    }

    lemma CeilingInRange(m: MtxId)
      requires Mid({}, {}, {})
      ensures HasCeiling(m, cfg.ceil) ==> cfg.ceil[m].value < TNUM_TPRI
    {
    }

    /** loc_mtx and tloc_mtx. No result means that the task waits. */
    method LocMtx(m: MtxId, tmo: Tmo) returns (ercd: Option<Error>)
      requires Inv() && runtsk.Some? && dspflg && m < |mtx|
      modifies this
      ensures Inv() && dspflg && |mtx| == |old(mtx)|
      ensures var t := old(runtsk.value); var x := old(tcb[t]);
              if x.raster then ercd == Some(E_RASTER)
              else if HasCeiling(m, cfg.ceil) && x.bpri < cfg.ceil[m].value then ercd == Some(E_ILUSE)
              else if old(mtx[m].loctsk) == None then ercd == Some(E_OK)
              else if old(mtx[m].loctsk) == Some(t) then ercd == Some(E_OBJ)
              else if tmo.Poll? then ercd == Some(E_TMOUT)
              else ercd == None
      ensures ercd == Some(E_OK) ==>
        var t := old(runtsk.value);
        && runtsk == old(runtsk) && tcb == old(tcb) && wq == old(wq) && timers == old(timers)
        && mtx == old(mtx)[m := Mtxcb(runtsk, old(lastmtx[t]))] && held == old(held)[t := [m] + old(held[t])]
        && pri == old(pri)[t := WithCeiling(old(pri[t]), m, cfg.ceil)]
      ensures ercd == None ==>
        var t := old(runtsk.value);
        && tcb == old(tcb)[t := old(tcb[t]).(tstat := Waiting(Object(m), false), winfo := Event(tmo.Finite?))]
        && t < |pri| && m < |old(wq)| && InRange(old(wq[m]), |pri|)
        && wq == old(wq)[m := Joined(old(wq[m]), t, pri, cfg.tpri[m])]
        && (!cfg.tpri[m] ==> wq[m] == old(wq[m]) + [t])
        && (cfg.tpri[m] ==> wq[m] == InsertAt(old(wq[m]), PriorityPlace(PrioritiesOf(old(wq[m]), pri), pri[t]), t))
        && timers == old(timers) + (if tmo.Finite? then {t} else {})
        && mtx == old(mtx) && held == old(held) && pri == old(pri)
      ensures ercd != None && ercd != Some(E_OK) ==>
        && tcb == old(tcb) && wq == old(wq) && timers == old(timers) && sched == old(sched)
        && mtx == old(mtx) && held == old(held) && pri == old(pri) && runtsk == old(runtsk)
    {
      hide SchedInv, StateOk, PriorityOk, MutexesOk, WaitersOk, StatesOk, PrioritiesOk;
      var t := runtsk.value;
      MutexQueues({}, {}, {});
      if tcb[t].raster {
        ercd := Some(E_RASTER);
      } else if cfg.ceil[m].Some? && tcb[t].bpri < cfg.ceil[m].value {
        ercd := Some(E_ILUSE);
      } else if mtx[m].loctsk == None {
        MutexAcquire(m);
        assert runtsk == schedtsk;
        ercd := Some(E_OK);
      } else if mtx[m].loctsk == runtsk {
        ercd := Some(E_OBJ);
      } else if tmo.Poll? {
        ercd := Some(E_TMOUT);
      } else {
        WobjMakeWait(m, tmo.Finite?);
        Dispatch();
        ercd := None;
      }
    }

    /** ploc_mtx: allowed while dispatching is disabled. */
    method PlocMtx(m: MtxId) returns (ercd: Error)
      requires Inv() && runtsk.Some? && m < |mtx|
      modifies this`pri, this`lastmtx, this`held, this`mtx, this`wq, this`sched, this`schedtsk
      ensures Inv() && runtsk == schedtsk && wq == old(wq)
      ensures var t := old(runtsk.value);
              if HasCeiling(m, cfg.ceil) && tcb[t].bpri < cfg.ceil[m].value then ercd == E_ILUSE
              else if old(mtx[m].loctsk) == None then ercd == E_OK
              else if old(mtx[m].loctsk) == Some(t) then ercd == E_OBJ
              else ercd == E_TMOUT
      ensures if ercd == E_OK
              then var t := runtsk.value;
                   && mtx == old(mtx)[m := Mtxcb(runtsk, old(lastmtx[t]))] && held == old(held)[t := [m] + old(held[t])]
                   && pri == old(pri)[t := WithCeiling(old(pri[t]), m, cfg.ceil)]
              else mtx == old(mtx) && held == old(held) && pri == old(pri) && sched == old(sched)
    {
      hide SchedInv, StateOk, PriorityOk, MutexesOk, WaitersOk, StatesOk, PrioritiesOk;
      var t := runtsk.value;
      MutexQueues({}, {}, {});
      if cfg.ceil[m].Some? && tcb[t].bpri < cfg.ceil[m].value {
        ercd := E_ILUSE;
      } else if mtx[m].loctsk == None {
        MutexAcquire(m);
        assert runtsk == schedtsk;
        ercd := E_OK;
      } else if mtx[m].loctsk == runtsk {
        ercd := E_OBJ;
      } else {
        ercd := E_TMOUT;
      }
    }

    /** The last mutex of a task is taken off its chain. */
    method PopMutex(t: TaskId, ghost out: set<TaskId>, ghost outPri: set<TaskId>) returns (m: MtxId)
      requires Mid(out, outPri, {}) && t < |tcb| && lastmtx[t].Some? && !tcb[t].tstat.Dormant?
      modifies this`lastmtx, this`held
      ensures Mid(out, outPri + {t}, {m}) && m < |mtx| && m < |wq|
      ensures old(lastmtx[t]) == Some(m) && old(held[t]) != [] && old(held[t][0]) == m
      ensures lastmtx == old(lastmtx)[t := mtx[m].prev] && held == old(held)[t := old(held[t])[1..]]
      ensures t !in outPri ==>
        && CeilingsOk(tcb[t].bpri, held[t], cfg.ceil)
        && pri[t] == WithCeiling(CeilPri(tcb[t].bpri, held[t], cfg.ceil), m, cfg.ceil)
    {
      hide SchedInv, MutexesOk, WaitersOk, WaitOk;
      MutexQueues(out, outPri, {});
      OwnChain(t, out, outPri, {});
      MutexPop(lastmtx, held, mtx, t);
      m := lastmtx[t].value;
      if t !in outPri {
        PriorityWithout(tcb[t].bpri, pri[t], held[t], cfg.ceil, 0);
        assert held[t][..0] + held[t][0 + 1..] == held[t][1..];
      }
      lastmtx := lastmtx[t := mtx[m].prev];
      held := held[t := held[t][1..]];
    }

    /** The task, which can run, gives up the mutex that it locked last. */
    method GiveUpLast(t: TaskId) returns (ghost pri1: seq<nat>)
      requires Mid({}, {}, {}) && t < |tcb| == |held| == |pri| == |lastmtx| && tcb[t].tstat.Runnable? && lastmtx[t].Some?
      modifies this`tcb, this`pri, this`lastmtx, this`held, this`mtx, this`wq, this`sched, this`schedtsk, this`place, this`timers
      ensures Mid({}, {}, {})
      ensures var h := old(held[t]); var m := old(lastmtx[t]).value;
              && h != [] && h[0] == m < |old(wq)| && pri1 == old(pri)[t := CeilPri(old(tcb[t].bpri), h[1..], cfg.ceil)]
              && PassedOn(m, cfg.ceil, old(mtx), mtx, old(wq), wq, old(tcb), tcb, pri1, pri, old(held)[t := h[1..]], held)
              && timers == old(timers) - if old(wq[m]) == [] then {} else {old(wq[m][0])}
      ensures t < |pri1| && (pri1[t] != old(pri[t]) && t < |pri| && pri[t] == pri1[t] ==> FirstOfPriority(t))
      ensures !dspflg ==> schedtsk == old(schedtsk)
    {
      hide Mid, PassedOn, CeilingsOk, QueuesGrow;
      var m := PopMutex(t, {}, {});
      assert {} + {t} == {t};
      MutexDropPriority(t, m, {m});
      RequeuedNot(old(wq), wq, cfg.tpri, pri, tcb[t].tstat, t);
      pri1 := pri;
      ghost var sched1 := sched;
      MutexRelease(m, {}, {});
      if pri1[t] != old(pri[t]) && t < |pri| && pri[t] == pri1[t] {
        StaysFirst(t, pri1, sched1);
      }
    }

    /** unl_mtx: only the mutex that the running task locked last can be unlocked. */
    method UnlMtx(m: MtxId) returns (ercd: Error)
      requires Inv() && runtsk.Some? && m < |mtx|
      modifies this
      ensures Inv() && dspflg == old(dspflg)
      ensures old(lastmtx[runtsk.value]) != Some(m) ==>
        ercd == E_OBJ && tcb == old(tcb) && mtx == old(mtx) && held == old(held) && pri == old(pri) && wq == old(wq)
        && timers == old(timers) && sched == old(sched) && runtsk == old(runtsk)
      ensures old(lastmtx[runtsk.value]) == Some(m) ==>
        var t := old(runtsk.value); var h := old(held[t]);
        && ercd == E_OK && h != [] && h[0] == m
        && PassedOn(m, cfg.ceil, old(mtx), mtx, old(wq), wq, old(tcb), tcb,
                    old(pri)[t := CeilPri(old(tcb[t].bpri), h[1..], cfg.ceil)], pri, old(held)[t := h[1..]], held)
        && timers == old(timers) - if old(wq[m]) == [] then {} else {old(wq[m][0])}
      // The task itself, and the one to which the mutex passes.
      ensures old(lastmtx[runtsk.value]) == Some(m) ==>
        var t := old(runtsk.value);
        && t < |pri| && t < |old(pri)| && tcb[t] == old(tcb[t])
        && (pri[t] != old(pri[t]) ==> FirstOfPriority(t))
      ensures old(lastmtx[runtsk.value]) == Some(m) && old(wq[m]) == [] ==> mtx[m].loctsk == None && wq == old(wq) && tcb == old(tcb)
      ensures old(lastmtx[runtsk.value]) == Some(m) && old(wq[m]) != [] ==>
        var w := old(wq[m][0]);
        && mtx[m].loctsk == Some(w) && wq == old(wq)[m := old(wq[m])[1..]]
        && w < |tcb| == |old(tcb)| && w < |pri| == |old(pri)| && old(tcb[w]).tstat.Waiting?
        && tcb[w].tstat == (if old(tcb[w]).tstat.suspended then Suspended else Runnable) && tcb[w].winfo == Wercd(E_OK)
        && pri[w] == if cfg.ceil[m].Some? && cfg.ceil[m].value < old(pri[w]) then cfg.ceil[m].value else old(pri[w])
    {
      hide Mid, PassedOn, RequestsPending, FirstOfPriority;
      MutexQueues({}, {}, {});
      var t := runtsk.value;
      OwnChain(t, {}, {}, {});
      if Some(m) != lastmtx[t] {
        ercd := E_OBJ;
      } else {
        ghost var pri1 := GiveUpLast(t);
        PassedOnRuns(m, old(mtx), old(wq), old(tcb), pri1, old(held)[t := old(held[t])[1..]], t);
        PassedOnTo(m, old(mtx), old(wq), old(tcb), pri1, old(pri), old(held)[t := old(held[t])[1..]], t);
        Dispatch();
        ercd := E_OK;
      }
    }

    lemma RequeuedNot(wq: seq<seq<TaskId>>, wq': seq<seq<TaskId>>, tpri: seq<bool>, pri': seq<nat>, s: Tstat, t: TaskId)
      requires s.Runnable?
      ensures Requeued(wq, wq', tpri, pri', PlaceOf(s), t) ==> wq' == wq
    {
    }

    /** Whoever gets a mutex, a task that can run still can, and requests for termination stay. */
    lemma PassedOnRuns(m: MtxId, mtx0: seq<Mtxcb>, wq0: seq<seq<TaskId>>, tcb0: seq<Tcb>, pri0: seq<nat>, held0: seq<seq<MtxId>>, t: TaskId)
      requires PassedOn(m, cfg.ceil, mtx0, mtx, wq0, wq, tcb0, tcb, pri0, pri, held0, held)
      requires RequestsPending(tcb0, runtsk, dspflg) && t < |tcb0| && tcb0[t].tstat.Runnable?
      ensures RequestsPending(tcb, runtsk, dspflg) && t < |tcb| && tcb[t].tstat.Runnable?
    {
    }

    /** The mutex passes to the first waiting task, which goes on, at no lower priority than the ceiling. */
    lemma PassedOnTo(m: MtxId, mtx0: seq<Mtxcb>, wq0: seq<seq<TaskId>>, tcb0: seq<Tcb>, pri1: seq<nat>, pri0: seq<nat>,
                     held0: seq<seq<MtxId>>, t: TaskId)
      requires PassedOn(m, cfg.ceil, mtx0, mtx, wq0, wq, tcb0, tcb, pri1, pri, held0, held) && m < |cfg.ceil|
      requires t < |tcb0| && tcb0[t].tstat.Runnable? && t < |pri1| == |pri0| && pri1 == pri0[t := pri1[t]]
      ensures t < |tcb| && tcb[t] == tcb0[t] && t < |pri| == |pri0| && pri[t] == pri1[t]
      ensures wq0[m] == [] ==> mtx[m].loctsk == None && wq == wq0 && tcb == tcb0
      ensures wq0[m] != [] ==>
        var w := wq0[m][0];
        && mtx[m].loctsk == Some(w) && wq == wq0[m := wq0[m][1..]]
        && w < |tcb| == |tcb0| && w < |pri| && tcb0[w].tstat.Waiting?
        && tcb[w].tstat == (if tcb0[w].tstat.suspended then Suspended else Runnable) && tcb[w].winfo == Wercd(E_OK)
        && pri[w] == if cfg.ceil[m].Some? && cfg.ceil[m].value < pri0[w] then cfg.ceil[m].value else pri0[w]
    {
    }

    /** The walk of ini_mtx along its owner's chain, to take mutex m out of it. */
    method UnlinkMutex(t: TaskId, m: MtxId, ghost i: nat, ghost mtx0: seq<Mtxcb>)
      requires MutexesOk(lastmtx, held, mtx0, {}) && t < |held| && i < |held[t]| && held[t][i] == m < |mtx0|
      requires mtx == mtx0[m := mtx0[m].(loctsk := None)]
      modifies this`lastmtx, this`mtx, this`held
      ensures MutexesOk(lastmtx, held, mtx, {})
      ensures held == old(held)[t := old(held[t])[..i] + old(held[t])[i + 1..]]
      ensures |mtx| == |old(mtx)| && forall n: MtxId :: n < |mtx| ==> mtx[n].loctsk == old(mtx[n].loctsk)
    {
      hide MutexesOk, Distinct;
      ChainOf(lastmtx, held, mtx0, t);
      var pp: Option<MtxId> := None; // whose pointer comes next: the task's, or that of a mutex
      var cur := lastmtx[t];
      ghost var k := 0;
      ghost var h := held[t];
      while cur.Some?
        invariant k <= i && cur == Some(h[k])
        invariant pp == if k == 0 then None else Some(h[k - 1])
        invariant lastmtx == old(lastmtx) && mtx == old(mtx) && held == old(held)
        decreases i - k
      {
        ChainNext(lastmtx[t], h, mtx0, k);
        if cur == Some(m) {
          ChainNext(lastmtx[t], h, mtx0, i);
          SameIndex(h, k, i);
          if i > 0 {
            ChainNext(lastmtx[t], h, mtx0, i - 1);
          }
          MutexUnlink(lastmtx, held, mtx0, t, i);
          held := held[t := h[..i] + h[i + 1..]];
          if pp == None {
            lastmtx := lastmtx[t := mtx[m].prev];
          } else {
            mtx := mtx[pp.value := mtx[pp.value].(prev := mtx[m].prev)];
          }
          ghost var loosened := if i == 0 then mtx0 else mtx0[h[i - 1] := mtx0[h[i - 1]].(prev := mtx0[m].prev)];
          MutexFree(lastmtx, held, loosened, m, {m});
          assert {m} - {m} == {};
          Neighbours(h, i);
          assert mtx == loosened[m := loosened[m].(loctsk := None)];
          break;
        }
        pp := cur;
        cur := mtx[cur.value].prev;
        k := k + 1;
      }
    }

    /** Mutex m, for which nobody waits, is taken from its owner. */
    method LoseMutex(t: TaskId, m: MtxId)
      requires Mid({}, {}, {}) && m < |mtx| && m < |wq| && wq[m] == [] && mtx[m].loctsk == Some(t)
      modifies this`lastmtx, this`mtx, this`held
      ensures Mid({}, {t}, {}) && t < |tcb| && |held| == |old(held)| == |tcb|
      ensures held == old(held)[t := Without(old(held[t]), m)]
      ensures |mtx| == |old(mtx)| && mtx[m].loctsk == None
      ensures forall n: MtxId :: n < |mtx| && n != m ==> mtx[n].loctsk == old(mtx[n].loctsk)
      ensures CeilingsOk(tcb[t].bpri, held[t], cfg.ceil)
        && pri[t] == WithCeiling(CeilPri(tcb[t].bpri, held[t], cfg.ceil), m, cfg.ceil)
    {
      hide SchedInv, MutexesOk, Distinct, WaitOk;
      var mtx0 := mtx;
      ghost var i := OwnerHolds(t, m);
      mtx := mtx[m := mtx[m].(loctsk := None)];
      PriorityWithout(tcb[t].bpri, pri[t], held[t], cfg.ceil, i);
      WithoutAt(held[t], i);
      UnlinkMutex(t, m, i, mtx0);
    }

    /** The owner of a mutex has it in its chain, and is not dormant. */
    lemma OwnerHolds(t: TaskId, m: MtxId) returns (i: nat)
      requires Mid({}, {}, {}) && m < |mtx| && mtx[m].loctsk == Some(t)
      ensures t < |tcb| == |held| && i < |held[t]| && held[t][i] == m && Distinct(held[t])
      ensures MutexesOk(lastmtx, held, mtx, {}) && !tcb[t].tstat.Dormant?
    {
      assert HoldsExactly(t, lastmtx[t], held[t], mtx, {});
      assert m in held[t];
      i :| 0 <= i < |held[t]| && held[t][i] == m;
      assert StateOk(tcb[t], place[t], t in timers, held[t], cfg.ipri[t], cfg.ceil);
    }

    /** The end of some waits takes no task's ability to run and no request for termination away. */
    lemma ReleasedRuns(tcb0: seq<Tcb>, s: seq<TaskId>, ercd: Error)
      requires Released(tcb0, tcb, s, ercd) && RequestsPending(tcb0, runtsk, dspflg)
      ensures |tcb| == |tcb0| && RequestsPending(tcb, runtsk, dspflg)
      ensures forall t: TaskId :: t < |tcb| && tcb0[t].tstat.Runnable? ==> tcb[t].tstat.Runnable?
    {
    }

    lemma FreeMutex(m: MtxId)
      requires Mid({}, {}, {}) && m < |mtx| && mtx[m].loctsk == None
      ensures m < |wq| && wq[m] == []
    {
    }

    lemma QueueCount()
      requires SchedInv()
      ensures |wq| == |cfg.tpri|
    {
    }

    /** The part of ini_mtx that concerns the owner. */
    method TakeFromOwner(m: MtxId)
      requires Mid({}, {}, {}) && m < |mtx| && m < |wq| && wq[m] == []
      modifies this`pri, this`lastmtx, this`mtx, this`held, this`wq, this`sched, this`schedtsk
      ensures Mid({}, {}, {}) && m < |mtx| == |old(mtx)| && mtx[m].loctsk == None
      ensures m < |wq| == |old(wq)| && wq[m] == []
      ensures forall n: MtxId :: n < |mtx| && n != m ==> mtx[n].loctsk == old(mtx[n].loctsk)
      ensures old(mtx[m].loctsk) == None ==> pri == old(pri) && held == old(held) && wq == old(wq)
      ensures old(mtx[m].loctsk).Some? ==>
        var t := old(mtx[m].loctsk.value);
        && t < |tcb| == |pri| == |held| == |old(held)| == |old(pri)| && held == old(held)[t := Without(old(held[t]), m)]
        && pri == old(pri)[t := CeilPri(tcb[t].bpri, held[t], cfg.ceil)]
        && (wq == old(wq) || Requeued(old(wq), wq, cfg.tpri, pri, PlaceOf(tcb[t].tstat), t))
      ensures !dspflg ==> schedtsk == old(schedtsk)
    {
      hide SchedInv, StateOk, PriorityOk, MutexesOk, WaitersOk, StatesOk, PrioritiesOk, Requeued;
      var t := mtx[m].loctsk;
      QueueCount();
      if t.Some? {
        ghost var i := OwnerHolds(t.value, m);
        OwnChain(t.value, {}, {}, {});
        LoseMutex(t.value, m);
        MutexDropPriority(t.value, m, {});
        OwnChain(t.value, {}, {}, {});
      }
      FreeMutex(m);
      QueueCount();
    }

    /** ini_mtx */
    method IniMtx(m: MtxId)
      requires Inv() && runtsk.Some? && m < |mtx|
      modifies this
      ensures Inv() && dspflg == old(dspflg) && m < |mtx| == |old(mtx)| && mtx[m].loctsk == None
      ensures forall n: MtxId :: n < |mtx| && n != m ==> mtx[n].loctsk == old(mtx[n].loctsk)
      ensures m < |wq| == |old(wq)| && wq[m] == [] && Released(old(tcb), tcb, old(wq[m]), E_DLT)
      ensures old(mtx[m].loctsk) == None ==> pri == old(pri) && held == old(held) && wq == old(wq)[m := []]
      ensures old(mtx[m].loctsk).Some? ==>
        var t := old(mtx[m].loctsk.value);
        && t < |tcb| == |pri| == |held| == |old(held)| == |old(pri)| && held == old(held)[t := Without(old(held[t]), m)]
        && pri == old(pri)[t := CeilPri(tcb[t].bpri, held[t], cfg.ceil)]
        && (wq == old(wq)[m := []] || Requeued(old(wq)[m := []], wq, cfg.tpri, pri, PlaceOf(tcb[t].tstat), t))
    {
      hide SchedInv, StateOk, PriorityOk, MutexesOk, WaitersOk, StatesOk, PrioritiesOk, Requeued, Released;
      MutexQueues({}, {}, {});
      OwnChain(runtsk.value, {}, {}, {});
      InitWaitQueue(m);
      ReleasedRuns(old(tcb), old(wq[m]), E_DLT);
      TakeFromOwner(m);
      Dispatch();
    }

    /** What forbids a base priority is the ceiling of a mutex that the task owns or waits for. */
    lemma CeilingForbids(t: TaskId, b: nat)
      requires Mid({}, {}, {}) && t < |tcb|
      ensures t < |held| && |mtx| == |cfg.ceil|
      ensures !CeilingsAllow(tcb[t], b, held[t], cfg.ceil) <==>
        exists m: MtxId :: m < |mtx| && m < |cfg.ceil| && cfg.ceil[m].Some? && b < cfg.ceil[m].value
          && (mtx[m].loctsk == Some(t) || (tcb[t].tstat.Waiting? && tcb[t].tstat.cause == Object(m)))
    {
      hide SchedInv, StatesOk, PrioritiesOk, WaitersOk;
      OwnChain(t, {}, {}, {});
      assert forall m: MtxId :: m in held[t] <==> m < |mtx| && mtx[m].loctsk == Some(t);
    }

    /** The test of chg_pri whether the ceilings allow the new base priority. */
    method BaseAllowed(t: TaskId, b: nat) returns (ok: bool)
      requires Mid({}, {}, {}) && t < |tcb|
      ensures t < |held| && (ok <==> CeilingsAllow(tcb[t], b, held[t], cfg.ceil))
    {
      hide SchedInv, WaitersOk, StatesOk, PrioritiesOk;
      OwnChain(t, {}, {}, {});
      if lastmtx[t].Some? || (tcb[t].tstat.Waiting? && tcb[t].tstat.cause.Object? && tcb[t].tstat.cause.q < |mtx|) {
        ok := MutexCheckCeilpri(t, b);
      } else {
        ok := true;
      }
    }

    /** The change of the base priority in chg_pri. */
    method SetBase(t: TaskId, b: nat)
      requires Mid({}, {}, {}) && t < |tcb| == |held| && b < TNUM_TPRI && !tcb[t].tstat.Dormant?
      requires CeilingsAllow(tcb[t], b, held[t], cfg.ceil)
      modifies this`tcb, this`pri, this`sched, this`schedtsk, this`wq
      ensures Mid({}, {}, {}) && t < |old(pri)| && tcb == old(tcb)[t := old(tcb[t]).(bpri := b)]
      ensures pri == old(pri)[t := CeilPri(b, held[t], cfg.ceil)]
      ensures if exists m: MtxId :: m in held[t] && HasCeiling(m, cfg.ceil)
              then pri == old(pri) && wq == old(wq) && sched == old(sched) && schedtsk == old(schedtsk)
              else pri[t] == b && Requeued(old(wq), wq, cfg.tpri, pri, PlaceOf(tcb[t].tstat), t)
                   && Reordered(old(sched), sched, cfg.unit, tcb[t].tstat, t, old(pri[t]), b, false)
                   && (tcb[t].tstat.Runnable? ==> LastOfPriority(t))
      ensures !dspflg ==> schedtsk == old(schedtsk)
    {
      hide SchedInv, MutexesOk, WaitersOk, Requeued, Reordered, CeilingsOk, StatesOk, PrioritiesOk, CeilPri, LastOfPriority;
      OwnChain(t, {}, {}, {});
      TaskFacts(t, {}, {}, {});
      tcb := tcb[t := tcb[t].(bpri := b)];
      StatesUpdate(old(tcb), tcb, place, place, timers, timers, held, cfg.ipri, cfg.ceil, {}, {}, t);
      PrioritiesUpdate(old(tcb), tcb, pri, pri, held, held, cfg.ceil, {}, {t}, t);
      var ceiling := false;
      if lastmtx[t].Some? {
        ceiling := MutexScanCeilmtx(t);
      }
      if !ceiling {
        NoCeilings(b, held[t], cfg.ceil);
        ChangePriorityOf(t, b, false, {}, {t}, {});
        assert {t} + {t} == {t};
      } else {
        SamePriority(old(tcb[t]).bpri, b, pri[t], held[t], cfg.ceil);
      }
      PriorityBack(t, {}, {t}, {});
      assert {t} - {t} == {};
    }

    /** chg_pri. A held ceiling determines the priority as before; without one the task goes behind
        the others of its new priority. */
    method ChgPri(t: TaskId, b: nat) returns (ercd: Error)
      requires Inv() && runtsk.Some? && t < |tcb| && b < TNUM_TPRI
      modifies this`tcb, this`pri, this`sched, this`schedtsk, this`wq, this`runtsk
      ensures Inv() && t < |held| && t < |old(pri)|
      ensures ercd == if old(tcb[t]).tstat.Dormant? then E_OBJ
                      else if !CeilingsAllow(old(tcb[t]), b, held[t], cfg.ceil) then E_ILUSE else E_OK
      ensures ercd != E_OK ==> tcb == old(tcb) && pri == old(pri) && wq == old(wq) && sched == old(sched) && runtsk == old(runtsk)
      ensures ercd == E_OK ==>
        && tcb == old(tcb)[t := old(tcb[t]).(bpri := b)]
        && pri == old(pri)[t := CeilPri(b, held[t], cfg.ceil)]
        && if exists m: MtxId :: m in held[t] && HasCeiling(m, cfg.ceil)
           then pri == old(pri) && wq == old(wq) && sched == old(sched) && runtsk == old(runtsk)
           else pri[t] == b && Requeued(old(wq), wq, cfg.tpri, pri, PlaceOf(tcb[t].tstat), t)
                && Reordered(old(sched), sched, cfg.unit, tcb[t].tstat, t, old(pri[t]), b, false)
                && (tcb[t].tstat.Runnable? ==> LastOfPriority(t))
      ensures ercd == E_ILUSE <==>
        && !old(tcb[t]).tstat.Dormant?
        && exists m: MtxId :: m < |mtx| && m < |cfg.ceil| && cfg.ceil[m].Some? && b < cfg.ceil[m].value
             && (mtx[m].loctsk == Some(t) || (old(tcb[t]).tstat.Waiting? && old(tcb[t]).tstat.cause == Object(m)))
    {
      hide SchedInv, MutexesOk, WaitersOk, StatesOk, PrioritiesOk, Requeued, Reordered, CeilingsOk, CeilingsAllow, LastOfPriority;
      OwnChain(t, {}, {}, {});
      CeilingForbids(t, b);
      if tcb[t].tstat.Dormant? {
        ercd := E_OBJ;
      } else {
        var ok := BaseAllowed(t, b);
        if !ok {
          ercd := E_ILUSE;
        } else {
          SetBase(t, b);
          RunningStays();
          Dispatch();
          ercd := E_OK;
        }
      }
    }

    /** mutex_release_all: a task that is being terminated gives up all its mutexes. */
    method MutexReleaseAll(t: TaskId)
      requires Mid({t}, {t}, {}) && t < |tcb| && place[t] == Nowhere && !tcb[t].tstat.Dormant?
      modifies this`tcb, this`pri, this`lastmtx, this`held, this`mtx, this`wq, this`sched, this`schedtsk, this`place, this`timers
      ensures Mid({t}, {t}, {}) && t < |tcb| == |held| == |lastmtx| && t < |old(held)|
      ensures place[t] == Nowhere && held[t] == [] && lastmtx[t] == None
      ensures |pri| == |old(pri)| == |tcb| == |old(tcb)| && tcb[t] == old(tcb[t]) && pri[t] == old(pri[t])
      ensures AllPassedOn(old(held[t]), cfg.ceil, old(mtx), mtx, old(wq), wq, old(tcb), tcb, old(pri), pri)
      ensures timers <= old(timers)
      ensures !dspflg ==> schedtsk == old(schedtsk)
    {
      hide Mid, PassedOn, AllPassedOn, Distinct;
      OwnChain(t, {t}, {t}, {});
      ghost var h := held[t];
      ghost var k := 0;
      AllPassedOnNone(cfg.ceil, mtx, wq, tcb, pri);
      while lastmtx[t].Some?
        invariant Mid({t}, {t}, {}) && t < |tcb| == |held| == |lastmtx| == |place|
        invariant place[t] == Nowhere && |pri| == |old(pri)| == |tcb| == |old(tcb)| && tcb[t] == old(tcb[t]) && pri[t] == old(pri[t])
        invariant k <= |h| && held[t] == h[k..] && Distinct(h)
        invariant AllPassedOn(h[..k], cfg.ceil, old(mtx), mtx, old(wq), wq, old(tcb), tcb, old(pri), pri)
        invariant timers <= old(timers)
        invariant !dspflg ==> schedtsk == old(schedtsk)
        decreases |h| - k
      {
        OwnChain(t, {t}, {t}, {});
        TakeNext(h, k);
        ReleaseNext(t, h[..k], old(mtx), old(wq), old(tcb), old(pri));
        k := k + 1;
      }
      OwnChain(t, {t}, {t}, {});
      assert h[..k] == h;
    }

    /** One step of it. */
    method ReleaseNext(t: TaskId, ghost ms: seq<MtxId>, ghost mtx0: seq<Mtxcb>, ghost wq0: seq<seq<TaskId>>, ghost tcb0: seq<Tcb>, ghost pri0: seq<nat>)
      requires Mid({t}, {t}, {}) && t < |tcb| == |place| == |held| == |lastmtx| && place[t] == Nowhere && !tcb[t].tstat.Dormant?
      requires held[t] != [] ==> held[t][0] !in ms
      requires lastmtx[t].Some? && AllPassedOn(ms, cfg.ceil, mtx0, mtx, wq0, wq, tcb0, tcb, pri0, pri)
      modifies this`tcb, this`pri, this`lastmtx, this`held, this`mtx, this`wq, this`sched, this`schedtsk, this`place, this`timers
      ensures Mid({t}, {t}, {}) && t < |tcb| == |held| == |lastmtx| == |place| && t < |old(held)|
      ensures place[t] == Nowhere && |pri| == |old(pri)| == |tcb| == |old(tcb)| && tcb[t] == old(tcb[t]) && pri[t] == old(pri[t])
      ensures old(held[t]) != [] && held[t] == old(held[t])[1..]
      ensures AllPassedOn(ms + [old(held[t])[0]], cfg.ceil, mtx0, mtx, wq0, wq, tcb0, tcb, pri0, pri)
      ensures timers <= old(timers)
      ensures !dspflg ==> schedtsk == old(schedtsk)
    {
      hide Mid, PassedOn, AllPassedOn, CeilingsOk;
      OwnChain(t, {t}, {t}, {});
      ghost var mtx1, wq1, tcb1, pri1 := mtx, wq, tcb, pri;
      var m := PopMutex(t, {t}, {t});
      assert {t} + {t} == {t};
      ghost var held1 := held;
      MutexRelease(m, {t}, {t});
      AllPassedOnMore(ms, m, cfg.ceil, mtx0, mtx1, mtx, wq0, wq1, wq, tcb0, tcb1, tcb, pri0, pri1, pri, held1, held);
      OwnChain(t, {t}, {t}, {});
    }

    lemma TakeNext(h: seq<MtxId>, k: nat)
      requires Distinct(h) && k < |h|
      ensures h[..k + 1] == h[..k] + [h[k]] && h[k] !in h[..k] && h[k..][1..] == h[k + 1..]
    {
    }

    // ---------- The end of a task ----------

    /** The first part of task_terminate: the task leaves the queue it is in, and its time event is
        cancelled. */
    method Withdraw(t: TaskId, room: nat)
      requires Mid({}, {}, {}) && t < |tcb| && !tcb[t].tstat.Dormant?
      modifies this`tcb, this`wq, this`sched, this`schedtsk, this`place, this`timers
      ensures Mid({t}, {t}, {}) && t < |tcb| && tcb[t] == old(tcb[t]) && place[t] == Nowhere
      ensures timers <= old(timers) - {t}
      ensures if tcb[t].tstat.Waiting? then LeftQueue(old(tcb), tcb, old(wq), wq, cfg, t, room) else tcb == old(tcb) && wq == old(wq)
      ensures !dspflg ==> schedtsk == old(schedtsk)
    {
      hide SchedInv, PriorityOk, MutexesOk, WaitersOk, LeftQueue, WaitOk;
      TaskFacts(t, {}, {}, {});
      if tcb[t].tstat.Runnable? {
        MakeNonRunnable(t);
      } else if tcb[t].tstat.Waiting? {
        WaitDequeueWobj(t, room);
        WaitDequeueTmevtb(t);
      }
    }

    /** make_dormant, and make_active for a queued activation. */
    method MakeDormant(t: TaskId)
      requires Mid({t}, {t}, {}) && t < |tcb| && t < |held| && place[t] == Nowhere && t !in timers && held[t] == []
      modifies this`tcb, this`pri, this`sched, this`schedtsk, this`place
      ensures Mid({}, {}, {}) && t < |tcb| && t < |cfg.ipri|
      ensures tcb == old(tcb)[t := Terminated(old(tcb[t]), cfg.ipri[t])] && pri == old(pri)[t := cfg.ipri[t]]
      ensures tcb[t].tstat == (if old(tcb[t].actque) then Runnable else Dormant) && !tcb[t].actque && !tcb[t].wupque
      ensures !tcb[t].raster && tcb[t].enater && tcb[t].bpri == cfg.ipri[t]
      ensures !dspflg ==> schedtsk == old(schedtsk)
    {
      hide SchedInv, MutexesOk, WaitersOk, WaitOk;
      OwnChain(t, {t}, {t}, {});
      InitialPriority(t);
      tcb := tcb[t := tcb[t].(tstat := Dormant, bpri := cfg.ipri[t], wupque := false, raster := false, enater := true)];
      SetPriority(t, cfg.ipri[t]);
      if tcb[t].actque {
        tcb := tcb[t := tcb[t].(actque := false)];
        tcb := tcb[t := tcb[t].(tstat := Runnable)];
        MakeRunnable(t);
      }
    }

    lemma InitialPriority(t: TaskId)
      requires SchedInv() && t < |pri|
      ensures t < |cfg.ipri| && cfg.ipri[t] < TNUM_TPRI
    {
    }

    /** No task waits for a mutex that it owns itself. */
    lemma OwnNotAwaited(t: TaskId)
      requires Mid({}, {}, {}) && t < |tcb|
      ensures t < |held| && forall m: MtxId :: m in held[t] <==> m < |mtx| && mtx[m].loctsk == Some(t)
      ensures tcb[t].tstat.Waiting? && tcb[t].tstat.cause.Object? ==> tcb[t].tstat.cause.q !in held[t]
    {
      hide ReadyQueues, WaitOrder, Caches, Select, PrioritiesOk;
      assert HoldsExactly(t, lastmtx[t], held[t], mtx, {});
      TaskFacts(t, {}, {}, {});
      if tcb[t].tstat.Waiting? && tcb[t].tstat.cause.Object? {
        WaitPlace(t);
        WaitFacts(wq, place, tcb[t].tstat.cause.q);
      }
    }

    /** The queues of other objects than the one that a task waited for are as before it left. */
    lemma StillAwaited(t: TaskId, room: nat, h: seq<MtxId>, tcb0: seq<Tcb>, wq0: seq<seq<TaskId>>)
      requires t < |tcb0| && (tcb0[t].tstat.Waiting? && tcb0[t].tstat.cause.Object? ==> tcb0[t].tstat.cause.q !in h)
      requires if tcb0[t].tstat.Waiting? then LeftQueue(tcb0, tcb, wq0, wq, cfg, t, room) else tcb == tcb0 && wq == wq0
      ensures |wq| == |wq0| && forall m: MtxId :: m in h && m < |wq| ==> wq[m] == wq0[m]
    {
    }

    /** The part of task_terminate in which the task gives up everything. */
    method Strip(t: TaskId, room: nat) returns (ghost tcb1: seq<Tcb>, ghost wq1: seq<seq<TaskId>>)
      requires Mid({}, {}, {}) && t < |tcb| && !tcb[t].tstat.Dormant?
      modifies this`tcb, this`pri, this`lastmtx, this`held, this`mtx, this`wq, this`sched, this`schedtsk, this`place, this`timers
      ensures Mid({t}, {t}, {}) && t < |tcb| == |held| == |place| == |pri| == |old(tcb)| == |old(pri)| == |old(held)| == |cfg.ipri|
      ensures place[t] == Nowhere && held[t] == [] && tcb[t] == old(tcb[t]) && pri[t] == old(pri[t])
      ensures if tcb[t].tstat.Waiting? then LeftQueue(old(tcb), tcb1, old(wq), wq1, cfg, t, room) else tcb1 == old(tcb) && wq1 == old(wq)
      ensures AllPassedOn(old(held[t]), cfg.ceil, old(mtx), mtx, wq1, wq, tcb1, tcb, old(pri), pri)
      ensures MutexesLeft(t, old(mtx), mtx, old(wq))
      ensures timers <= old(timers) - {t}
      ensures !dspflg ==> schedtsk == old(schedtsk)
    {
      hide Mid, AllPassedOn, LeftQueue, PassedOn, MutexesLeft;
      OwnChain(t, {}, {}, {});
      MutexQueues({}, {}, {});
      OwnNotAwaited(t);
      Withdraw(t, room);
      StillAwaited(t, room, old(held[t]), old(tcb), old(wq));
      OwnChain(t, {t}, {t}, {});
      tcb1, wq1 := tcb, wq;
      if lastmtx[t].Some? {
        MutexReleaseAll(t);
      } else {
        AllPassedOnNone(cfg.ceil, mtx, wq, tcb, pri);
      }
      OwnChain(t, {t}, {t}, {});
      TaskFacts(t, {t}, {t}, {});
      OwnedPassOn(t, old(held[t]), cfg.ceil, old(mtx), mtx, old(wq), wq1, wq, tcb1, tcb, old(pri), pri);
    }

    /** task_terminate */
    method TaskTerminate(t: TaskId, room: nat)
      requires Mid({}, {}, {}) && t < |tcb| && !tcb[t].tstat.Dormant?
      modifies this`tcb, this`pri, this`lastmtx, this`held, this`mtx, this`wq, this`sched, this`schedtsk, this`place, this`timers
      ensures Mid({}, {}, {}) && t < |tcb| == |held| && t < |old(held)| && held[t] == []
      ensures Ends(t, old(held[t]), room, cfg, old(mtx), mtx, old(wq), wq, old(tcb), tcb, old(pri), pri)
      ensures t < |cfg.ipri| && tcb[t].tstat == (if old(tcb[t].actque) then Runnable else Dormant) && !tcb[t].actque && !tcb[t].wupque
      ensures !tcb[t].raster && tcb[t].enater && tcb[t].bpri == cfg.ipri[t]
      ensures MutexesLeft(t, old(mtx), mtx, old(wq))
      ensures timers <= old(timers) - {t}
      ensures !dspflg ==> schedtsk == old(schedtsk)
    {
      hide Mid, AllPassedOn, LeftQueue, PassedOn, Terminated, Ends, MutexesLeft;
      OwnChain(t, {}, {}, {});
      ghost var tcb1, wq1 := Strip(t, room);
      ghost var tcb2, pri2 := tcb, pri;
      MakeDormant(t);
      OwnChain(t, {}, {}, {});
      EndsBy(t, old(held[t]), room, cfg, old(mtx), mtx, old(wq), wq1, wq, old(tcb), tcb1, tcb2, old(pri), pri2);
    }

    /** ter_tsk */
    method TerTsk(t: TaskId, room: nat) returns (ercd: Error)
      requires Inv() && runtsk.Some? && t < |tcb|
      modifies this
      ensures Inv() && dspflg == old(dspflg) && t < |old(held)|
      ensures ercd == if Some(t) == old(runtsk) then E_ILUSE else if old(tcb[t]).tstat.Dormant? then E_OBJ else E_OK
      ensures ercd == E_OK ==>
        && Ends(t, old(held[t]), room, cfg, old(mtx), mtx, old(wq), wq, old(tcb), tcb, old(pri), pri)
        && timers <= old(timers) - {t}
        && t < |tcb| && t < |cfg.ipri| && tcb[t].tstat == (if old(tcb[t].actque) then Runnable else Dormant)
        && !tcb[t].actque && !tcb[t].wupque && !tcb[t].raster && tcb[t].enater && tcb[t].bpri == cfg.ipri[t]
      ensures ercd == E_OK ==>
        && |mtx| == |old(mtx)| <= |old(wq)|
        && forall m: MtxId :: m < |mtx| ==>
             mtx[m].loctsk == if old(mtx[m].loctsk) != Some(t) then old(mtx[m].loctsk)
                              else if old(wq[m]) == [] then None else Some(old(wq[m])[0])
      ensures ercd != E_OK ==> tcb == old(tcb) && wq == old(wq) && mtx == old(mtx) && pri == old(pri) && timers == old(timers) && sched == old(sched)
    {
      hide Mid, Ends;
      OwnChain(t, {}, {}, {});
      if Some(t) == runtsk {
        ercd := E_ILUSE;
      } else if tcb[t].tstat.Dormant? {
        ercd := E_OBJ;
      } else {
        TaskTerminate(t, room);
        EndsRuns(t, old(held[t]), room, cfg, old(mtx), mtx, old(wq), wq, old(tcb), tcb, old(pri), pri);
        Dispatch();
        ercd := E_OK;
      }
    }

    /** The part of ras_ter for a task that does not allow its termination and cannot run: its wait
        and its suspension end, so that it can find out. The request is noted together with the
        change of state. */
    method ForceRunnable(t: TaskId, room: nat)
      requires Mid({}, {}, {}) && t < |tcb| && !tcb[t].tstat.Dormant? && !tcb[t].tstat.Runnable?
      modifies this`tcb, this`wq, this`sched, this`schedtsk, this`place, this`timers
      ensures Mid({}, {}, {}) && t < |tcb| && timers <= old(timers) - {t}
      ensures tcb[t] == AskedToEnd(old(tcb[t]))
      ensures if old(tcb[t]).tstat.Waiting? then LeftQueue(old(tcb), tcb[t := old(tcb[t])], old(wq), wq, cfg, t, room)
              else tcb == old(tcb)[t := tcb[t]] && wq == old(wq)
      ensures !dspflg ==> schedtsk == old(schedtsk)
    {
      hide SchedInv, StateOk, PriorityOk, MutexesOk, WaitersOk, LeftQueue, StatesOk, PrioritiesOk;
      IdleFacts(t);
      if tcb[t].tstat.Waiting? {
        CancelWait(t, room);
        ghost var mid := tcb;
        ResumeAsked(t);
        assert tcb[t := old(tcb[t])] == mid[t := old(tcb[t])];
      } else {
        ResumeAsked(t);
      }
    }

    /** The wait of a task that is asked to end. */
    method CancelWait(t: TaskId, room: nat)
      requires Mid({}, {}, {}) && t < |tcb| && tcb[t].tstat.Waiting?
      modifies this`tcb, this`wq, this`sched, this`schedtsk, this`place, this`timers
      ensures Mid({t}, {}, {}) && t < |tcb| == |place| && place[t] == Nowhere && timers <= old(timers) - {t}
      ensures tcb[t] == old(tcb[t]).(winfo := Wercd(E_RASTER))
      ensures LeftQueue(old(tcb), tcb[t := old(tcb[t])], old(wq), wq, cfg, t, room)
      ensures !dspflg ==> schedtsk == old(schedtsk)
    {
      hide SchedInv, StateOk, PriorityOk, MutexesOk, WaitersOk, LeftQueue;
      WaitDequeueWobj(t, room);
      ghost var mid := tcb;
      WaitDequeueTmevtb(t);
      SetWercd(t, E_RASTER);
      assert tcb[t := old(tcb[t])] == mid;
    }

    /** A suspended task is in no queue. */
    lemma IdleFacts(t: TaskId)
      requires Mid({}, {}, {}) && t < |tcb|
      ensures |place| == |tcb| && (tcb[t].tstat.Suspended? ==> Mid({t}, {}, {}) && place[t] == Nowhere && t !in timers)
    {
      TaskFacts(t, {}, {}, {});
    }

    method ResumeAsked(t: TaskId)
      requires Mid({t}, {}, {}) && t < |tcb| && place[t] == Nowhere && t !in timers
      modifies this`tcb, this`sched, this`schedtsk, this`place
      ensures Mid({}, {}, {}) && tcb == old(tcb)[t := old(tcb[t]).(tstat := Runnable, raster := true)]
      ensures !dspflg ==> schedtsk == old(schedtsk)
    {
      hide SchedInv, PriorityOk, MutexesOk, WaitersOk;
      tcb := tcb[t := tcb[t].(tstat := Runnable, raster := true)];
      MakeRunnable(t);
      NotWaiting(tcb[t], place[t], held[t], cfg.ipri[t], cfg.ceil);
    }

    /** ras_ter */
    method RasTer(t: TaskId, room: nat) returns (ercd: Error)
      requires Inv() && runtsk.Some? && t < |tcb|
      modifies this
      ensures Inv() && dspflg == old(dspflg) && t < |old(held)| && t < |tcb|
      ensures ercd == if Some(t) == old(runtsk) then E_ILUSE else if old(tcb[t]).tstat.Dormant? then E_OBJ else E_OK
      ensures ercd != E_OK ==> tcb == old(tcb) && wq == old(wq) && mtx == old(mtx) && pri == old(pri) && timers == old(timers) && sched == old(sched)
      ensures ercd == E_OK && old(tcb[t]).enater ==>
        && Ends(t, old(held[t]), room, cfg, old(mtx), mtx, old(wq), wq, old(tcb), tcb, old(pri), pri)
        && timers <= old(timers) - {t}
        && t < |cfg.ipri| && tcb[t].tstat == (if old(tcb[t].actque) then Runnable else Dormant)
        && !tcb[t].actque && !tcb[t].wupque && !tcb[t].raster && tcb[t].enater && tcb[t].bpri == cfg.ipri[t]
      ensures ercd == E_OK && !old(tcb[t]).enater ==>
        && tcb[t].tstat == Runnable && tcb[t].raster && (old(tcb[t]).tstat.Waiting? ==> tcb[t].winfo == Wercd(E_RASTER))
        && !tcb[t].enater && tcb[t].bpri == old(tcb[t]).bpri && tcb[t].actque == old(tcb[t]).actque && tcb[t].wupque == old(tcb[t]).wupque
      ensures ercd == E_OK && !old(tcb[t]).enater ==>
        && tcb[t] == AskedToEnd(old(tcb[t])) && mtx == old(mtx) && pri == old(pri) && held == old(held)
        && if old(tcb[t]).tstat.Waiting? then LeftQueue(old(tcb), tcb[t := old(tcb[t])], old(wq), wq, cfg, t, room)
           else tcb == old(tcb)[t := tcb[t]] && wq == old(wq)
    {
      hide Mid, Ends, LeftQueue;
      OwnChain(t, {}, {}, {});
      if Some(t) == runtsk {
        ercd := E_ILUSE;
      } else if tcb[t].tstat.Dormant? {
        ercd := E_OBJ;
      } else if tcb[t].enater {
        TaskTerminate(t, room);
        EndsRuns(t, old(held[t]), room, cfg, old(mtx), mtx, old(wq), wq, old(tcb), tcb, old(pri), pri);
        Dispatch();
        ercd := E_OK;
      } else {
        RequestEnd(t, room);
        ercd := E_OK;
      }
    }

    /** The part of ras_ter for a task that does not allow its termination. */
    method RequestEnd(t: TaskId, room: nat)
      requires Inv() && t < |tcb| && !tcb[t].enater && !tcb[t].tstat.Dormant?
      modifies this`tcb, this`wq, this`sched, this`schedtsk, this`place, this`timers, this`runtsk
      ensures Inv() && t < |tcb| && tcb[t] == AskedToEnd(old(tcb[t]))
      ensures if old(tcb[t]).tstat.Waiting? then LeftQueue(old(tcb), tcb[t := old(tcb[t])], old(wq), wq, cfg, t, room)
              else tcb == old(tcb)[t := tcb[t]] && wq == old(wq)
    {
      hide Mid, LeftQueue;
      if tcb[t].tstat.Runnable? {
        NoteRequest(t);
      } else {
        ForceRunnable(t, room);
        AskedRuns(t, room, old(wq), old(tcb));
        Dispatch();
      }
    }

    method NoteRequest(t: TaskId)
      requires Mid({}, {}, {}) && t < |tcb| && tcb[t].tstat.Runnable?
      modifies this`tcb
      ensures Mid({}, {}, {}) && tcb == old(tcb)[t := AskedToEnd(old(tcb[t]))]
    {
      hide SchedInv, MutexesOk, WaitersOk, PriorityOk;
      tcb := tcb[t := tcb[t].(raster := true)];
    }

    lemma AskedRuns(t: TaskId, room: nat, wq0: seq<seq<TaskId>>, tcb0: seq<Tcb>)
      requires RequestsPending(tcb0, runtsk, dspflg) && t < |tcb0| && t < |tcb| && !tcb0[t].enater
      requires tcb[t] == AskedToEnd(tcb0[t])
      requires if tcb0[t].tstat.Waiting? then LeftQueue(tcb0, tcb[t := tcb0[t]], wq0, wq, cfg, t, room)
               else tcb == tcb0[t := tcb[t]] && wq == wq0
      ensures RequestsPending(tcb, runtsk, dspflg) && |tcb| == |tcb0|
      ensures forall x: TaskId :: x < |tcb| && tcb0[x].tstat.Runnable? ==> tcb[x].tstat.Runnable?
    {
      var tcb1 := tcb[t := tcb0[t]];
      forall x: TaskId | x < |tcb0|
        ensures x < |tcb| && tcb[x].raster == (if x == t then true else tcb0[x].raster) && tcb[x].enater == tcb0[x].enater
        ensures tcb0[x].tstat.Runnable? ==> tcb[x].tstat.Runnable?
      {
        assert x != t ==> tcb1[x] == tcb[x];
      }
    }

    /** set_dspflg: dispatching is enabled and the mask opened, and a window switch that was put off is
        made. */
    method SetDspflg(twd: nat, idle: nat)
      requires Mid({}, {}, {}) && twd < |sched| && idle < |sched|
      modifies this`dspflg, this`ipmOpen, this`schedtsk, this`twdsched, this`idlesched
      ensures Mid({}, {}, {}) && dspflg && ipmOpen && twdsched == twd && idlesched == idle
    {
      hide ReadyQueues, WaitQueues, WaitOrder, ConfigOk, Select, StatesOk, PrioritiesOk, MutexesOk, WaitersOk, CacheOk;
      twdsched, idlesched := twd, idle;
      dspflg, ipmOpen := true, true;
      UpdateSchedtsk();
    }

    /** The termination of the running task, followed by dispatching. */
    method EndRunning(room: nat)
      requires Mid({}, {}, {}) && dspflg && enadsp && ipmOpen
      requires runtsk.Some? && runtsk.value < |tcb| && tcb[runtsk.value].tstat.Runnable?
      requires forall t: TaskId :: t < |tcb| && tcb[t].raster && tcb[t].enater ==> runtsk == Some(t)
      modifies this`tcb, this`pri, this`lastmtx, this`held, this`mtx, this`wq, this`sched, this`schedtsk, this`place, this`timers, this`runtsk
      ensures Inv() && old(runtsk.value) < |old(held)|
      ensures Ends(old(runtsk.value), old(held[runtsk.value]), room, cfg, old(mtx), mtx, old(wq), wq, old(tcb), tcb, old(pri), pri)
      ensures var t := old(runtsk.value);
              && t < |tcb| && t < |cfg.ipri| && tcb[t].tstat == (if old(tcb[t].actque) then Runnable else Dormant)
              && !tcb[t].actque && !tcb[t].wupque && !tcb[t].raster && tcb[t].enater && tcb[t].bpri == cfg.ipri[t]
      ensures timers <= old(timers)
    {
      hide SchedInv, MutexesOk, WaitersOk, StatesOk, PrioritiesOk, Ends;
      var t := runtsk.value;
      OwnChain(t, {}, {}, {});
      TaskTerminate(t, room);
      EndsRuns(t, old(held[t]), room, cfg, old(mtx), mtx, old(wq), wq, old(tcb), tcb, old(pri), pri);
      Dispatch();
    }

    /** ext_tsk: also ends a task that has disabled dispatching. */
    method ExtTsk(room: nat, twd: nat, idle: nat)
      requires Inv() && runtsk.Some? && twd < |sched| && idle < |sched|
      modifies this
      ensures Inv() && dspflg && old(runtsk.value) < |old(held)|
      ensures Ends(old(runtsk.value), old(held[runtsk.value]), room, cfg, old(mtx), mtx, old(wq), wq, old(tcb), tcb, old(pri), pri)
      ensures var t := old(runtsk.value);
              && t < |tcb| && t < |cfg.ipri| && tcb[t].tstat == (if old(tcb[t].actque) then Runnable else Dormant)
              && !tcb[t].actque && !tcb[t].wupque && !tcb[t].raster && tcb[t].enater && tcb[t].bpri == cfg.ipri[t]
      ensures timers <= old(timers)
    {
      hide SchedInv, MutexesOk, WaitersOk, StatesOk, PrioritiesOk, Ends;
      if !dspflg {
        enadsp := true;
        SetDspflg(twd, idle);
      }
      EndRunning(room);
    }

    /** The end of task t, by ext_tsk if it runs and by ter_tsk if another task does. */
    method EndTask(t: TaskId, room: nat)
      requires Inv() && runtsk.Some? && t < |tcb| && !tcb[t].tstat.Dormant?
      modifies this
      ensures Inv() && t < |tcb| && tcb[t].tstat == (if old(tcb[t].actque) then Runnable else Dormant) && !tcb[t].actque
    {
      hide Mid, Ends;
      OwnChain(t, {}, {}, {});
      UnitsExist();
      if runtsk == Some(t) {
        ExtTsk(room, twdsched, idlesched);
      } else {
        var ercd := TerTsk(t, room);
      }
    }

    lemma UnitsExist()
      requires Mid({}, {}, {})
      ensures twdsched < |sched| && idlesched < |sched|
    {
    }

    /** No more than one activation is queued: a task that is ended twice in a row is dormant, unless nobody
        runs who could end it a second time. */
    method EndTwice(t: TaskId, room: nat)
      requires Inv() && runtsk.Some? && t < |tcb| && !tcb[t].tstat.Dormant?
      modifies this
      ensures Inv() && t < |tcb| && (tcb[t].tstat.Dormant? || runtsk == None)
      ensures !tcb[t].actque
    {
      hide Mid;
      EndTask(t, room);
      if tcb[t].tstat.Runnable? && runtsk.Some? {
        EndTask(t, room);
      }
    }

    /** ena_ter: a request for termination that came before takes effect, if dispatching is enabled. */
    method EnaTer(room: nat)
      requires Inv() && runtsk.Some?
      modifies this
      ensures Inv() && dspflg == old(dspflg) && old(runtsk.value) < |old(held)|
      ensures var t := old(runtsk.value);
              if old(tcb[t]).raster && dspflg
              then Ends(t, old(held[t]), room, cfg, old(mtx), mtx, old(wq), wq, old(tcb), tcb, old(pri), pri)
                   && t < |tcb| && t < |cfg.ipri| && tcb[t].tstat == (if old(tcb[t].actque) then Runnable else Dormant)
                   && !tcb[t].actque && !tcb[t].wupque && !tcb[t].raster && tcb[t].enater && tcb[t].bpri == cfg.ipri[t]
              else tcb == old(tcb)[t := old(tcb[t]).(enater := true)] && mtx == old(mtx) && wq == old(wq) && pri == old(pri)
                   && sched == old(sched) && runtsk == old(runtsk)
    {
      hide SchedInv, MutexesOk, WaitersOk, PriorityOk, Ends;
      var t := runtsk.value;
      OwnChain(t, {}, {}, {});
      if tcb[t].raster && dspflg {
        EndRunning(room);
      } else {
        tcb := tcb[t := tcb[t].(enater := true)];
      }
    }

    /** dis_ter */
    method DisTer()
      requires Inv() && runtsk.Some?
      modifies this`tcb
      ensures Inv() && tcb == old(tcb)[runtsk.value := old(tcb[runtsk.value]).(enater := false)]
    {
      hide SchedInv, MutexesOk, WaitersOk, PriorityOk;
      tcb := tcb[runtsk.value := tcb[runtsk.value].(enater := false)];
    }

    /** dis_dsp */
    method DisDsp()
      requires Inv() && runtsk.Some?
      modifies this`dspflg, this`enadsp
      ensures Inv() && !dspflg && !enadsp
    {
      hide ReadyQueues, WaitQueues, WaitOrder, ConfigOk, Select, StatesOk, PrioritiesOk, MutexesOk, WaitersOk;
      enadsp, dspflg := false, false;
    }

    /** Dispatching is enabled again: the task that should run by now does, unless the running task is to
        end. */
    method Enable(room: nat, twd: nat, idle: nat)
      requires Mid({}, {}, {}) && enadsp && RequestsPending(tcb, runtsk, dspflg) && twd < |sched| && idle < |sched|
      requires runtsk.Some? && runtsk.value < |tcb| && tcb[runtsk.value].tstat.Runnable?
      modifies this
      ensures Inv() && dspflg && twdsched == twd && idlesched == idle && old(runtsk.value) < |old(held)|
      ensures var t := old(runtsk.value);
              if old(tcb[t]).raster && old(tcb[t]).enater
              then Ends(t, old(held[t]), room, cfg, old(mtx), mtx, old(wq), wq, old(tcb), tcb, old(pri), pri)
              else tcb == old(tcb) && mtx == old(mtx) && wq == old(wq) && pri == old(pri) && sched == old(sched)
    {
      hide SchedInv, MutexesOk, WaitersOk, StatesOk, PrioritiesOk, Ends;
      var t := runtsk.value;
      OwnChain(t, {}, {}, {});
      SetDspflg(twd, idle);
      if tcb[t].raster && tcb[t].enater {
        EndRunning(room);
      } else {
        Dispatch();
      }
    }

    /** ena_dsp: takes effect at once if the interrupt priority mask is open. */
    method EnaDsp(room: nat, twd: nat, idle: nat)
      requires Inv() && runtsk.Some? && twd < |sched| && idle < |sched|
      modifies this
      ensures Inv() && enadsp && dspflg == ipmOpen == old(ipmOpen) && old(runtsk.value) < |old(held)|
      ensures var t := old(runtsk.value);
              if ipmOpen && old(tcb[t]).raster && old(tcb[t]).enater
              then Ends(t, old(held[t]), room, cfg, old(mtx), mtx, old(wq), wq, old(tcb), tcb, old(pri), pri)
              else tcb == old(tcb) && mtx == old(mtx) && wq == old(wq) && pri == old(pri) && sched == old(sched)
      ensures if ipmOpen then twdsched == twd && idlesched == idle
              else runtsk == old(runtsk) && twdsched == old(twdsched) && idlesched == old(idlesched)
    {
      hide SchedInv, MutexesOk, WaitersOk, StatesOk, PrioritiesOk, Ends;
      OwnChain(runtsk.value, {}, {}, {});
      enadsp := true;
      if ipmOpen {
        Enable(room, twd, idle);
      }
    }

    /** chg_ipm: dispatching is enabled with an open mask, unless a task has disabled it. */
    method ChgIpm(open: bool, room: nat, twd: nat, idle: nat)
      requires Inv() && runtsk.Some? && twd < |sched| && idle < |sched|
      modifies this
      ensures Inv() && ipmOpen == open && enadsp == old(enadsp) && dspflg == (open && enadsp) && old(runtsk.value) < |old(held)|
      ensures var t := old(runtsk.value);
              if dspflg && old(tcb[t]).raster && old(tcb[t]).enater
              then Ends(t, old(held[t]), room, cfg, old(mtx), mtx, old(wq), wq, old(tcb), tcb, old(pri), pri)
              else tcb == old(tcb) && mtx == old(mtx) && wq == old(wq) && pri == old(pri) && sched == old(sched)
      ensures if dspflg then twdsched == twd && idlesched == idle
              else runtsk == old(runtsk) && twdsched == old(twdsched) && idlesched == old(idlesched)
    {
      hide ReadyQueues, WaitQueues, WaitOrder, ConfigOk, Select, StatesOk, PrioritiesOk, MutexesOk, WaitersOk, Ends;
      OwnChain(runtsk.value, {}, {}, {});
      if open && enadsp {
        Enable(room, twd, idle);
      } else {
        ipmOpen, dspflg := open, false;
      }
    }

    /** make_active: a dormant task becomes one that can run. */
    method MakeActive(t: TaskId)
      requires Mid({}, {}, {}) && t < |tcb| && tcb[t].tstat.Dormant?
      modifies this`tcb, this`sched, this`schedtsk, this`place
      ensures Mid({}, {}, {}) && tcb == old(tcb)[t := old(tcb[t]).(tstat := Runnable)]
      ensures !dspflg ==> schedtsk == old(schedtsk)
    {
      hide SchedInv, MutexesOk, WaitersOk, PriorityOk;
      TaskFacts(t, {}, {}, {});
      tcb := tcb[t := tcb[t].(tstat := Runnable)];
      MakeRunnable(t);
      NotWaiting(tcb[t], place[t], held[t], cfg.ipri[t], cfg.ceil);
    }

    /** act_tsk */
    method ActTsk(t: TaskId) returns (ercd: Error)
      requires Inv() && t < |tcb|
      modifies this`tcb, this`sched, this`schedtsk, this`place, this`runtsk
      ensures Inv() && t < |cfg.noactque|
      ensures var x := old(tcb[t]);
              if x.tstat.Dormant? then ercd == E_OK && tcb == old(tcb)[t := x.(tstat := Runnable)]
              else if cfg.noactque[t] || x.actque then ercd == E_QOVR && tcb == old(tcb)
              else ercd == E_OK && tcb == old(tcb)[t := x.(actque := true)]
      ensures !old(tcb[t]).tstat.Dormant? ==> sched == old(sched)
    {
      hide SchedInv, MutexesOk, WaitersOk, PriorityOk;
      TaskFacts(t, {}, {}, {});
      ActivationFacts(t);
      if tcb[t].tstat.Dormant? {
        MakeActive(t);
        Dispatch();
        ercd := E_OK;
      } else if cfg.noactque[t] || tcb[t].actque {
        ercd := E_QOVR;
      } else {
        tcb := tcb[t := tcb[t].(actque := true)];
        ercd := E_OK;
      }
    }

    lemma ActivationFacts(t: TaskId)
      requires SchedInv() && t < |pri|
      ensures t < |cfg.noactque|
    {
    }

    /** can_act */
    method CanAct(t: TaskId) returns (n: nat)
      requires Inv() && t < |tcb|
      modifies this`tcb
      ensures Inv() && tcb == old(tcb)[t := old(tcb[t]).(actque := false)] && n == if old(tcb[t]).actque then 1 else 0
    {
      hide SchedInv, MutexesOk, WaitersOk, PriorityOk;
      n := if tcb[t].actque then 1 else 0;
      tcb := tcb[t := tcb[t].(actque := false)];
    }

    /** rot_rdq and mrot_rdq */
    method RotRdq(p: nat, u: nat)
      requires Inv() && p < TNUM_TPRI && u < |sched|
      modifies this`sched, this`schedtsk, this`runtsk
      ensures Inv() && |old(sched[u].queue)| == TNUM_TPRI
      ensures var q := old(sched[u].queue[p]);
              QueueReplaced(old(sched), sched, u, p, if |q| < 2 then q else q[1..] + [q[0]])
    {
      hide SchedInv, MutexesOk, WaitersOk, StatesOk, PrioritiesOk;
      RotateReadyQueue(p, u);
      RunningStays();
      Dispatch();
    }

    /** A switch of time windows or system cycles while tasks run. */
    method SwitchWindows(twd: nat, idle: nat)
      requires Inv() && dspflg && twd < |sched| && idle < |sched|
      modifies this`twdsched, this`idlesched, this`schedtsk, this`runtsk
      ensures Inv() && twdsched == twd && idlesched == idle
    {
      hide SchedInv, MutexesOk, WaitersOk, StatesOk, PrioritiesOk;
      SwitchWindow(twd, idle);
      Dispatch();
    }

    // ---------- What the invariant means ----------

    /** Every task is in exactly the place that its state says: in the ready queue of its own unit and
        current priority, in the queue of the one object it waits for, or in no queue; and its time
        event is registered exactly while it waits with a timeout. */
    lemma EachTaskInItsPlace(t: TaskId)
      requires Inv() && t < |tcb|
      ensures t < |pri| && t < |cfg.unit|
      ensures forall u: nat, p: nat :: u < |sched| && p < |sched[u].queue| ==>
                (t in sched[u].queue[p] <==> tcb[t].tstat.Runnable? && cfg.unit[t] == u && pri[t] == p)
      ensures forall q: nat :: q < |wq| ==> (t in wq[q] <==> tcb[t].tstat.Waiting? && tcb[t].tstat.cause == Object(q))
      ensures t in timers <==> tcb[t].tstat.Waiting? && tcb[t].winfo == Event(true)
      ensures forall u: nat, p: nat :: u < |sched| && p < |sched[u].queue| ==> Distinct(sched[u].queue[p])
      ensures forall q: nat :: q < |wq| ==> Distinct(wq[q])
    {
      TaskFacts(t, {}, {}, {});
      forall u: nat, p: nat | u < |sched| && p < |sched[u].queue|
        ensures t in sched[u].queue[p] <==> tcb[t].tstat.Runnable? && cfg.unit[t] == u && pri[t] == p
        ensures Distinct(sched[u].queue[p])
      {
        OneUnit(u);
        QueueFacts(sched, place, pri, cfg.unit, u, p);
      }
      forall q: nat | q < |wq|
        ensures t in wq[q] <==> tcb[t].tstat.Waiting? && tcb[t].tstat.cause == Object(q)
        ensures Distinct(wq[q])
      {
        WaitFacts(wq, place, q);
      }
    }

    /** The tests of the kernel on the byte of the coded state are the ones that are made here on the
        state itself. */
    lemma TestsMatch(t: TaskId)
      requires Inv() && t < |tcb|
      ensures var x := tcb[t].tstat; var waits := x.Waiting? && x.cause.Object?;
              (waits ==> x.cause.q < |cfg.kind|) &&
              var b := Encode(CodeOf(x, cfg.kind));
              && (b == TS_DORMANT <==> x.Dormant?) && (b & TS_RUNNABLE != 0 <==> x.Runnable?)
              && (b & TS_WAITING_MASK != 0 <==> x.Waiting?)
              && (b & TS_SUSPENDED != 0 <==> x.Suspended? || (x.Waiting? && x.suspended))
              && (b & !TS_SUSPENDED == WaitCode(SLP) <==> x.Waiting? && x.cause.Sleep?)
              && (b & !TS_SUSPENDED == WaitCode(MTX) <==> waits && x.cause.q < |mtx|)
              && (b & !TS_SUSPENDED == WaitCode(SMBF) <==> waits && cfg.kind[x.cause.q] == SMBF)
              && (b & (0x18 << 2) != 0 <==> waits)
              && (waits && x.cause.q < |cfg.tpri| && cfg.tpri[x.cause.q] ==> b & (0x10 << 2) != 0)
    {
      hide ReadyQueues, WaitOrder, Caches, Select, PrioritiesOk, MutexesOk, WaitersOk, Encode, WaitCode;
      if tcb[t].tstat.Waiting? && tcb[t].tstat.cause.Object? {
        WaitPlace(t);
      }
      TestsAgreeWithState(tcb[t].tstat, cfg.kind);
    }

    /** A task runs at the most urgent of its base priority and the ceilings of the mutexes whose
        owner it is; no such ceiling is less urgent than its base priority. */
    lemma PriorityIsCeilinged(t: TaskId)
      requires Inv() && t < |tcb|
      ensures t < |pri| && |mtx| == |cfg.ceil| && pri[t] <= tcb[t].bpri
      ensures forall m: MtxId :: m < |mtx| && mtx[m].loctsk == Some(t) && cfg.ceil[m].Some? ==> pri[t] <= cfg.ceil[m].value <= tcb[t].bpri
      ensures pri[t] == tcb[t].bpri
        || exists m: MtxId :: m < |mtx| && mtx[m].loctsk == Some(t) && cfg.ceil[m] == Some(pri[t])
    {
      hide SchedInv, StatesOk, WaitersOk;
      OwnChain(t, {}, {}, {});
      TaskFacts(t, {}, {}, {});
      CeilPriIsLeast(tcb[t].bpri, held[t], cfg.ceil);
      assert forall m: MtxId :: m in held[t] <==> m < |mtx| && mtx[m].loctsk == Some(t);
    }

    /** While dispatching is enabled, no task of the kernel domain or of the current time window that
        can run is more urgent than the running task. If nobody runs, nobody of them can. */
    lemma RunningIsMostUrgent(t: TaskId)
      requires Inv() && dspflg && t < |tcb| && tcb[t].tstat.Runnable? && t < |cfg.unit|
      requires cfg.unit[t] == KERNEL || cfg.unit[t] == twdsched
      ensures runtsk.Some? && runtsk.value < |pri| && t < |pri| && pri[runtsk.value] <= pri[t]
    {
      TaskFacts(t, {}, {}, {});
      var u := cfg.unit[t];
      OneUnit(u);
      QueueFacts(sched, place, pri, cfg.unit, u, pri[t]);
      assert sched[u].queue[pri[t]] != [];
      BestSome(sched[u].queue, pri[t]);
      PredPriority(sched[u], u, place, pri, cfg.unit);
      assert BestPri(sched[u].queue, 0) <= pri[t];
    }

    /** Tasks of other units run only if no task of the kernel domain or the current window can. */
    lemma IdleRunsLast(t: TaskId)
      requires Inv() && dspflg && runtsk.Some? && t < |tcb| && t < |cfg.unit| && tcb[t].tstat.Runnable?
      requires cfg.unit[t] == KERNEL || cfg.unit[t] == twdsched
      ensures runtsk.value < |cfg.unit| && cfg.unit[runtsk.value] in {KERNEL, twdsched}
    {
      hide BitsOk;
      RunningIsMostUrgent(t);
      var u := cfg.unit[t];
      QueueFacts(sched, place, pri, cfg.unit, u, pri[t]);
      BestSome(sched[u].queue, pri[t]);
      forall v: nat | v < |sched| && sched[v].pred.Some?
        ensures sched[v].pred.value < |cfg.unit| && cfg.unit[sched[v].pred.value] == v
      {
        OneUnit(v);
        PredPriority(sched[v], v, place, pri, cfg.unit);
      }
    }

    /** The task that goes first in a unit is the head of one of its ready queues, and no task of the unit
        that can run is more urgent. */
    lemma FirstOfUnit(u: nat)
      requires Inv() && u < |sched|
      ensures |tcb| == |pri| == |cfg.unit| && |sched[u].queue| == TNUM_TPRI
      ensures sched[u].pred.Some? ==>
        var r := sched[u].pred.value;
        && r < |tcb| && tcb[r].tstat.Runnable? && cfg.unit[r] == u
        && pri[r] < TNUM_TPRI && sched[u].queue[pri[r]] != [] && sched[u].queue[pri[r]][0] == r
      ensures forall t: TaskId :: t < |tcb| && tcb[t].tstat.Runnable? && cfg.unit[t] == u ==>
                sched[u].pred.Some? && pri[sched[u].pred.value] <= pri[t]
    {
      hide ReadyQueues, WaitQueues, WaitOrder, Caches, Select, BitsOk, PrioritiesOk, MutexesOk, WaitersOk;
      OneUnit(u);
      if sched[u].pred.Some? {
        PredPriority(sched[u], u, place, pri, cfg.unit);
        TaskFacts(sched[u].pred.value, {}, {}, {});
        assert UnitQueues(sched[u].queue, u, place, pri, cfg.unit);
      }
      forall t: TaskId | t < |tcb| && tcb[t].tstat.Runnable? && cfg.unit[t] == u
        ensures sched[u].pred.Some? && pri[sched[u].pred.value] <= pri[t]
      {
        TaskFacts(t, {}, {}, {});
        QueueFacts(sched, place, pri, cfg.unit, u, pri[t]);
        BestSome(sched[u].queue, pri[t]);
        PredPriority(sched[u], u, place, pri, cfg.unit);
      }
    }

    /** While dispatching is enabled, the running task is the head of the queue of its priority. It is of
        the kernel domain, unless all such tasks are strictly less urgent than it; it is of the unit that
        idles only if no task of the other two can run, and then no other of that unit is more urgent.
        Nobody runs only if nobody of the three can. */
    lemma RunningIsTheOne()
      requires Inv() && dspflg
      ensures runtsk.Some? ==>
        var r := runtsk.value;
        && r < |pri| && r < |cfg.unit| && cfg.unit[r] < |sched| && pri[r] < |sched[cfg.unit[r]].queue|
        && sched[cfg.unit[r]].queue[pri[r]] != [] && sched[cfg.unit[r]].queue[pri[r]][0] == r
        && (cfg.unit[r] == KERNEL || cfg.unit[r] == twdsched || cfg.unit[r] == idlesched)
      ensures |cfg.unit| == |pri| == |tcb|
      ensures forall t: TaskId :: t < |tcb| && tcb[t].tstat.Runnable? && cfg.unit[t] in {KERNEL, twdsched, idlesched} ==> runtsk.Some?
      ensures forall t: TaskId :: t < |tcb| && tcb[t].tstat.Runnable? && cfg.unit[t] == KERNEL ==>
                cfg.unit[runtsk.value] == KERNEL || pri[runtsk.value] < pri[t]
      ensures forall t: TaskId :: t < |tcb| && tcb[t].tstat.Runnable? && cfg.unit[t] in {KERNEL, twdsched} ==>
                cfg.unit[runtsk.value] in {KERNEL, twdsched} && pri[runtsk.value] <= pri[t]
      ensures (forall x: TaskId :: x < |tcb| && tcb[x].tstat.Runnable? ==> cfg.unit[x] !in {KERNEL, twdsched}) ==>
                forall t: TaskId :: t < |tcb| && tcb[t].tstat.Runnable? && cfg.unit[t] == idlesched ==>
                  cfg.unit[runtsk.value] == idlesched && pri[runtsk.value] <= pri[t]
    {
      hide ReadyQueues, WaitQueues, WaitOrder, Caches, CacheOk, StatesOk, PrioritiesOk, MutexesOk, WaitersOk;
      FirstOfUnit(KERNEL);
      FirstOfUnit(twdsched);
      FirstOfUnit(idlesched);
    }

    // ---------- The start ----------

    /** initialize_task, the initialisation of the objects, and the first dispatching: the tasks of act
        can run, and the most urgent of them does. */
    constructor (c: Config, nunit: nat, twd: nat, idle: nat)
      requires ConfigOk(c, nunit) && twd < nunit && idle < nunit
      ensures Inv() && cfg == c && dspflg && |tcb| == |c.ipri| && twdsched == twd && idlesched == idle
      ensures forall t: TaskId :: t < |tcb| ==>
        && tcb[t].tstat == (if t in c.act then Runnable else Dormant) && tcb[t].bpri == c.ipri[t] && tcb[t].enater
        && !tcb[t].actque && !tcb[t].wupque && !tcb[t].raster
      ensures c.act == [] ==> runtsk == None
      ensures forall q: nat :: q < |wq| ==> wq[q] == []
      ensures forall m: MtxId :: m < |mtx| ==> mtx[m].loctsk == None
    {
      cfg := c;
      var n := |c.ipri|;
      tcb := seq(n, (i: nat) requires i < n => InitialTask(c.ipri[i], false));
      pri := c.ipri;
      lastmtx := seq(n, _ => None);
      sched := seq(nunit, _ => EmptySchedcb());
      wq := seq(|c.tpri|, _ => []);
      mtx := seq(|c.ceil|, _ => Mtxcb(None, None));
      timers := {};
      runtsk, schedtsk, dspflg, enadsp, ipmOpen, twdsched, idlesched := None, None, true, true, true, twd, idle;
      place := seq(n, _ => Nowhere);
      held := seq(n, _ => []);
      new;
      hide ConfigOk, EmptySchedcb, Inv;
      Start();
    }

    /** All variables after their initialisation. */
    ghost predicate Blank()
      reads this
    {
      && ConfigOk(cfg, |sched|) && twdsched < |sched| && idlesched < |sched| && KERNEL < |sched|
      && dspflg && enadsp && ipmOpen && schedtsk == None
      && |tcb| == |cfg.ipri| && (forall t: TaskId :: t < |tcb| ==> tcb[t] == InitialTask(cfg.ipri[t], false))
      && pri == cfg.ipri && |place| == |lastmtx| == |held| == |tcb|
      && (forall t: TaskId :: t < |tcb| ==> place[t] == Nowhere && lastmtx[t] == None && held[t] == [])
      && (forall u: nat :: u < |sched| ==> sched[u] == EmptySchedcb())
      && |wq| == |cfg.tpri| && |mtx| == |cfg.ceil| && timers == {}
      && (forall q: nat :: q < |wq| ==> wq[q] == []) && forall m: MtxId :: m < |mtx| ==> mtx[m].loctsk == None
    }

    lemma BlankIsMid()
      requires Blank()
      ensures Mid({}, {}, {}) && RequestsPending(tcb, runtsk, dspflg)
    {
      hide ReadyQueues, Caches, WaitQueues, WaitOrder, StatesOk, PrioritiesOk, MutexesOk, WaitersOk, CacheOk;
      StartQueues(sched, wq, place, pri, cfg.unit, cfg.tpri);
      StartTasks(tcb, pri, lastmtx, held, mtx, wq, place, cfg.ipri, cfg.ceil);
    }

    /** The activations and the first dispatching. */
    method Start()
      requires Blank()
      modifies this`tcb, this`sched, this`schedtsk, this`place, this`runtsk
      ensures Inv() && |tcb| == |cfg.ipri| && forall t: TaskId :: t < |tcb| ==> tcb[t] == InitialTask(cfg.ipri[t], t in cfg.act)
      ensures cfg.act == [] ==> runtsk == None
    {
      hide Mid, Inv, ConfigOk, EmptySchedcb;
      BlankIsMid();
      ActivateAll();
      Dispatch();
    }

    /** The activations in initialize_task. */
    method ActivateAll()
      requires Mid({}, {}, {}) && dspflg && |tcb| == |cfg.ipri|
      requires forall t: TaskId :: t < |tcb| ==> tcb[t] == InitialTask(cfg.ipri[t], false)
      modifies this`tcb, this`sched, this`schedtsk, this`place
      ensures Mid({}, {}, {}) && |tcb| == |cfg.ipri|
      ensures forall t: TaskId :: t < |tcb| ==> tcb[t] == InitialTask(cfg.ipri[t], t in cfg.act)
      ensures cfg.act == [] ==> schedtsk == old(schedtsk)
    {
      hide Mid;
      var i := 0;
      ActInRange();
      while i < |cfg.act|
        invariant i <= |cfg.act| && Mid({}, {}, {}) && |tcb| == |cfg.ipri|
        invariant forall t: TaskId :: t < |tcb| ==> tcb[t] == InitialTask(cfg.ipri[t], t in cfg.act[..i])
        invariant cfg.act == [] ==> schedtsk == old(schedtsk)
      {
        var t := cfg.act[i];
        assert t in cfg.act && t !in cfg.act[..i];
        assert cfg.act[..i + 1] == cfg.act[..i] + [t];
        MakeActive(t);
        i := i + 1;
      }
      assert cfg.act[..i] == cfg.act;
    }

    lemma ActInRange()
      requires Mid({}, {}, {})
      ensures Distinct(cfg.act) && forall t: TaskId :: t in cfg.act ==> t < |tcb|
    {
    }
  }

  /** A run: a task is activated at the start, and locks a mutex whose ceiling is above its priority. */
  method LockAtStart() returns (k: Kernel)
    ensures fresh(k) && k.Inv() && k.dspflg && k.runtsk == Some(0)
    ensures |k.mtx| == 1 && k.mtx[0].loctsk == k.runtsk && |k.pri| == 1 && k.pri[0] == 2
  {
    hide Kernel.Mid;
    var c := Config([KERNEL], [5], [false], [true], [MTX], [Some(2)], [0]);
    k := new Kernel(c, 1, KERNEL, KERNEL);
    k.RunningIsMostUrgent(0);
    k.TaskFacts(0, {}, {}, {});
    k.PriorityIsCeilinged(0);
    var locked := k.LocMtx(0, Forever);
    k.TaskFacts(0, {}, {}, {});
    k.PriorityIsCeilinged(0);
  }

  lemma StartQueues(sched: seq<Schedcb>, wq: seq<seq<TaskId>>, place: seq<Place>, pri: seq<nat>, unit: seq<nat>, tpri: seq<bool>)
    requires forall u: nat :: u < |sched| ==>
      && |sched[u].queue| == TNUM_TPRI && sched[u].primap == 0 && sched[u].pred == None
      && forall p: nat :: p < TNUM_TPRI ==> sched[u].queue[p] == []
    requires |wq| == |tpri| && forall q: nat :: q < |wq| ==> wq[q] == []
    requires |place| == |pri| == |unit| && forall t: TaskId :: t < |place| ==> place[t] == Nowhere
    ensures ReadyQueues(sched, place, pri, unit) && Caches(sched, |pri|)
    ensures WaitQueues(wq, place) && WaitOrder(wq, tpri, pri)
  {
    forall u: nat | u < |sched|
      ensures UnitQueues(sched[u].queue, u, place, pri, unit) && CacheOk(sched[u])
    {
      EmptyUnit(sched[u]);
    }
  }

  lemma StartTasks(tcb: seq<Tcb>, pri: seq<nat>, lastmtx: seq<Option<MtxId>>, held: seq<seq<MtxId>>, mtx: seq<Mtxcb>, wq: seq<seq<TaskId>>,
                   place: seq<Place>, ipri: seq<nat>, ceil: seq<Option<nat>>)
    requires |tcb| == |pri| == |lastmtx| == |held| == |place| == |ipri| && |mtx| <= |wq|
    requires forall t: TaskId :: t < |tcb| ==>
      && tcb[t].tstat.Dormant? && DormantOk(tcb[t], [], ipri[t]) && pri[t] == ipri[t] < TNUM_TPRI
      && lastmtx[t] == None && held[t] == [] && place[t] == Nowhere
    requires forall m: MtxId :: m < |mtx| ==> mtx[m].loctsk == None
    requires forall q: nat :: q < |wq| ==> wq[q] == []
    ensures StatesOk(tcb, place, {}, held, ipri, ceil, {}) && PrioritiesOk(tcb, pri, held, ceil, {})
    ensures MutexesOk(lastmtx, held, mtx, {}) && WaitersOk(wq, mtx)
  {
  }

  lemma EmptyUnit(sc: Schedcb)
    requires |sc.queue| == TNUM_TPRI && (forall p: nat :: p < TNUM_TPRI ==> sc.queue[p] == []) && sc.primap == 0 && sc.pred == None
    ensures CacheOk(sc)
  {
    hide Has, PrimapBit;
    forall p: nat | p < TNUM_TPRI
      ensures !Has(0, p)
    {
      NoBit(p);
    }
  }
}
