/** The clients of the time event heap in hrp3_wo_tecs/kernel/cyclic.c and alarm.c. */
module TimeClients {
  import opened Common
  import opened TimeHeap
  import opened TimeEvent

  lemma HeapFits(tm: TimeManager)
    requires tm.Valid()
    ensures tm.heap.last < tm.heap.nodes.Length
  {
  }

  /** A cyclic notification. */
  class Cyclic {
    const tm: TimeManager
    const tmevtb: Block
    const cycphs: int
    const cyctim: int
    var cycsta: bool

    /** The event is registered exactly while the notification is started. */
    ghost predicate Inv()
      reads this, tm, tm.heap, tm.heap.nodes, tm.heap.blocks
    {
      && tm.Valid() && 0 <= cycphs <= TMAX_RELTIM && 0 < cyctim <= TMAX_RELTIM
      && (cycsta <==> tmevtb in tm.heap.blocks)
    }

    constructor (tm: TimeManager, cycphs: int, cyctim: int)
      requires tm.Valid() && 0 <= cycphs <= TMAX_RELTIM && 0 < cyctim <= TMAX_RELTIM
      ensures Inv() && !cycsta && fresh(tmevtb) && this.tm == tm && this.cycphs == cycphs && this.cyctim == cyctim
    {
      this.tm, this.cycphs, this.cyctim, cycsta := tm, cycphs, cyctim, false;
      tmevtb := new Block();
    }

    /** sta_cyc. A notification that is started already starts anew. */
    method StaCyc()
      requires Inv() && (!cycsta ==> tm.heap.last + 1 < tm.heap.nodes.Length)
      modifies this, tm, tm.heap, tm.heap.nodes, tm.heap.blocks, tmevtb
      ensures Inv() && cycsta && tm.heap.blocks == old(tm.heap.blocks) + {tmevtb}
      ensures tmevtb.due == tm.cur + tm.tstep + cycphs && tmevtb.reltim == cycphs && tmevtb.regHrt == tm.hrt >= old(tm.hrt)
    {
      hide TimeManager.Valid, TimeManager.ValidButTimer;
      var newHrtcnt: int;
      ghost var now: int;
      newHrtcnt, now := tm.TargetHrtGetCurrent();
      if cycsta {
        HeapFits(tm);
        tm.Dequeue(tmevtb, newHrtcnt, now);
        newHrtcnt, now := tm.TargetHrtGetCurrent();
      } else {
        cycsta := true;
      }
      tm.EnqueueReltim(tmevtb, cycphs, newHrtcnt, now);
    }

    /** stp_cyc */
    method StpCyc()
      requires Inv()
      modifies this, tm, tm.heap, tm.heap.nodes, tm.heap.blocks
      ensures Inv() && !cycsta && tm.heap.blocks == old(tm.heap.blocks) - {tmevtb}
    {
      hide TimeManager.Valid, TimeManager.ValidButTimer;
      if cycsta {
        cycsta := false;
        var newHrtcnt: int;
        ghost var now: int;
        newHrtcnt, now := tm.TargetHrtGetCurrent();
        tm.Dequeue(tmevtb, newHrtcnt, now);
      }
    }

    /** call_cyclic, before the handler is called. The event has been taken from the heap because it was
        due. The next one comes a period after the time of this one, however late this call is. */
    method CallCyclic()
      requires tm.Valid() && tm.inSignalTime && cycsta && tmevtb !in tm.heap.blocks
      requires tm.EventOk(tmevtb) && tmevtb.due <= tm.cur && 0 <= cycphs <= TMAX_RELTIM && 0 < cyctim <= TMAX_RELTIM
      requires tm.heap.last + 1 < tm.heap.nodes.Length
      modifies tm.heap, tm.heap.nodes, tm.heap.blocks, tmevtb
      ensures Inv() && tm.heap.blocks == old(tm.heap.blocks) + {tmevtb}
      ensures tmevtb.due == old(tmevtb.due) + cyctim
    {
      hide TimeManager.Valid, TimeManager.ValidButTimer;
      tm.RegisterAgain(tmevtb, cyctim);
    }
  }

  /** An alarm notification. */
  class Alarm {
    const tm: TimeManager
    const tmevtb: Block
    var almsta: bool

    ghost predicate Inv()
      reads this, tm, tm.heap, tm.heap.nodes, tm.heap.blocks
    {
      tm.Valid() && (almsta <==> tmevtb in tm.heap.blocks)
    }

    constructor (tm: TimeManager)
      requires tm.Valid()
      ensures Inv() && !almsta && fresh(tmevtb) && this.tm == tm
    {
      this.tm, almsta := tm, false;
      tmevtb := new Block();
    }

    /** sta_alm */
    method StaAlm(almtim: int) returns (ercd: Error)
      requires Inv() && (!almsta ==> tm.heap.last + 1 < tm.heap.nodes.Length)
      modifies this, tm, tm.heap, tm.heap.nodes, tm.heap.blocks, tmevtb
      ensures Inv() && ercd == if 0 <= almtim <= TMAX_RELTIM then E_OK else E_PAR
      ensures ercd == E_OK ==>
        && almsta && tm.heap.blocks == old(tm.heap.blocks) + {tmevtb}
        && tmevtb.due == tm.cur + tm.tstep + almtim && tmevtb.reltim == almtim
      ensures ercd == E_PAR ==> almsta == old(almsta) && tm.heap.blocks == old(tm.heap.blocks)
    {
      hide TimeManager.Valid, TimeManager.ValidButTimer;
      if !(0 <= almtim <= TMAX_RELTIM) {
        return E_PAR;
      }
      var newHrtcnt: int;
      ghost var now: int;
      newHrtcnt, now := tm.TargetHrtGetCurrent();
      if almsta {
        HeapFits(tm);
        tm.Dequeue(tmevtb, newHrtcnt, now);
        newHrtcnt, now := tm.TargetHrtGetCurrent();
      } else {
        almsta := true;
      }
      tm.EnqueueReltim(tmevtb, almtim, newHrtcnt, now);
      ercd := E_OK;
    }

    /** stp_alm */
    method StpAlm()
      requires Inv()
      modifies this, tm, tm.heap, tm.heap.nodes, tm.heap.blocks
      ensures Inv() && !almsta && tm.heap.blocks == old(tm.heap.blocks) - {tmevtb}
    {
      hide TimeManager.Valid, TimeManager.ValidButTimer;
      if almsta {
        almsta := false;
        var newHrtcnt: int;
        ghost var now: int;
        newHrtcnt, now := tm.TargetHrtGetCurrent();
        tm.Dequeue(tmevtb, newHrtcnt, now);
      }
    }

    /** call_alarm, before the handler is called: the event has been taken from the heap. */
    method CallAlarm()
      requires tm.Valid() && almsta && tmevtb !in tm.heap.blocks
      modifies this`almsta
      ensures Inv() && !almsta
    {
      almsta := false;
    }
  }
}
