/** Data queues of hrp3_wo_tecs/kernel/dataqueue.c: a ring of fixed capacity, which may be zero, and the
    tasks that are blocked on it. */
module DataQueue {
  import opened Common
  import opened WaitQueue

  /** A blocked sender, with its data. */
  type Sender = Waiter<int>

  class Queue {
    const dtqcnt: nat
    /** Whether senders wait in the order of their priorities. */
    const byPriority: bool
    const dtqmb: array<int>

    var count: nat
    var head: nat
    var tail: nat

    var swait: seq<Sender>
    var rwait: seq<TaskId>

    /** What has been given to receivers that were blocked. */
    var got: map<TaskId, int>

    /** The data in the ring, oldest first. */
    ghost var contents: seq<int>

    ghost predicate RingOk()
      reads `count, `head, `tail, `contents, dtqmb
    {
      && dtqmb.Length == dtqcnt
      && count == |contents| <= dtqcnt
      && (dtqcnt == 0 ==> head == 0) && (dtqcnt > 0 ==> head < dtqcnt)
      && tail == Around(head + count, dtqcnt)
      && forall i :: 0 <= i < count ==> dtqmb[Around(head + i, dtqcnt)] == contents[i]
    }

    /** Senders are blocked only while the ring is full, and receivers only while it is empty and no
        sender is blocked. */
    ghost predicate Inv()
      reads this, dtqmb
    {
      && RingOk()
      && (swait != [] ==> count == dtqcnt)
      && (rwait != [] ==> count == 0 && swait == [])
      && (byPriority ==> ByPriority(swait))
    }

    /** initialize_dataqueue */
    constructor (dtqcnt: nat, byPriority: bool)
      ensures Inv() && fresh(dtqmb) && this.dtqcnt == dtqcnt && this.byPriority == byPriority
      ensures contents == [] && swait == [] && rwait == []
    {
      this.dtqcnt, this.byPriority := dtqcnt, byPriority;
      dtqmb := new int[dtqcnt];
      count, head, tail := 0, 0, 0;
      swait, rwait, got, contents := [], [], map[], [];
    }

    /** enqueue_data */
    method EnqueueData(data: int)
      requires RingOk() && count < dtqcnt
      modifies dtqmb, `count, `tail, `contents
      ensures RingOk() && contents == old(contents) + [data]
    {
      dtqmb[tail] := data;
      count := count + 1;
      tail := tail + 1;
      if tail >= dtqcnt {
        tail := 0;
      }
      contents := contents + [data];
    }

    /** force_enqueue_data: a full ring loses exactly its oldest data. */
    method ForceEnqueueData(data: int)
      requires RingOk() && dtqcnt > 0
      modifies dtqmb, `count, `head, `tail, `contents
      ensures RingOk()
      ensures contents == (if old(count) < dtqcnt then old(contents) else old(contents)[1..]) + [data]
    {
      dtqmb[tail] := data;
      tail := tail + 1;
      if tail >= dtqcnt {
        tail := 0;
      }
      if count < dtqcnt {
        count := count + 1;
        contents := contents + [data];
      } else {
        head := tail;
        contents := contents[1..] + [data];
      }
    }

    /** dequeue_data */
    method DequeueData() returns (data: int)
      requires RingOk() && count > 0
      modifies `count, `head, `contents
      ensures RingOk() && data == old(contents)[0] && contents == old(contents)[1..]
    {
      data := dtqmb[head];
      count := count - 1;
      head := head + 1;
      if head >= dtqcnt {
        head := 0;
      }
      contents := contents[1..];
    }

    /** What can still be received: the data in the ring, and then that of the blocked senders. */
    ghost function Pending(): seq<int>
      reads this
    {
      contents + DataOf(swait)
    }

    /** send_data */
    method SendData(data: int) returns (ok: bool, receiver: Option<TaskId>)
      requires Inv()
      modifies dtqmb, `count, `tail, `contents, `rwait, `got
      ensures Inv()
      ensures ok <==> old(rwait) != [] || old(|contents|) < dtqcnt
      ensures receiver == if old(rwait) == [] then None else Some(old(rwait)[0])
      ensures rwait == if old(rwait) == [] then [] else old(rwait)[1..]
      ensures got == if old(rwait) == [] then old(got) else old(got)[old(rwait)[0] := data]
      ensures contents == if old(rwait) == [] && ok then old(contents) + [data] else old(contents)
    {
      receiver := None;
      if rwait != [] {
        receiver := Some(rwait[0]);
        got := got[rwait[0] := data];
        rwait := rwait[1..];
        ok := true;
      } else if count < dtqcnt {
        EnqueueData(data);
        ok := true;
      } else {
        ok := false;
      }
    }

    /** snd_dtq, psnd_dtq and tsnd_dtq, for task t. No result means that the task is blocked. */
    method SndDtq(t: TaskId, pri: nat, raster: bool, data: int, tmo: Tmo) returns (ercd: Option<Error>, receiver: Option<TaskId>)
      requires Inv()
      modifies this, dtqmb
      ensures Inv()
      ensures ercd == if raster then Some(E_RASTER)
                      else if old(rwait) != [] || old(|contents|) < dtqcnt then Some(E_OK)
                      else if tmo.Poll? then Some(E_TMOUT) else None
      ensures receiver == if ercd == Some(E_OK) && old(rwait) != [] then Some(old(rwait)[0]) else None
      ensures rwait == if receiver == None then old(rwait) else old(rwait)[1..]
      ensures got == if receiver == None then old(got) else old(got)[receiver.value := data]
      ensures swait == if ercd == None then Join(old(swait), Waiter(t, pri, data), byPriority) else old(swait)
      ensures contents == if ercd == Some(E_OK) && receiver == None then old(contents) + [data] else old(contents)
      ensures !byPriority ==>
        Pending() == if ercd == None || (ercd == Some(E_OK) && receiver == None) then old(Pending()) + [data] else old(Pending())
    {
      hide RingOk, Spot;
      receiver := None;
      if raster {
        ercd := Some(E_RASTER);
      } else {
        CountFull();
        DataOfConcat(swait, [Waiter(t, pri, data)]);
        var ok;
        ok, receiver := SendData(data);
        if ok {
          ercd := Some(E_OK);
        } else if tmo.Poll? {
          ercd := Some(E_TMOUT);
        } else {
          if byPriority {
            JoinKeepsOrder(swait, Waiter(t, pri, data));
          }
          CountFull();
          swait := Join(swait, Waiter(t, pri, data), byPriority);
          ercd := None;
        }
      }
    }

    lemma CountFull()
      requires RingOk()
      ensures count == |contents| <= dtqcnt
    {
    }

    /** force_send_data and fsnd_dtq. Senders that are blocked stay so: the ring stays full. */
    method FsndDtq(data: int) returns (ercd: Error)
      requires Inv()
      modifies dtqmb, `count, `head, `tail, `contents, `rwait, `got
      ensures Inv() && ercd == if dtqcnt == 0 then E_ILUSE else E_OK
      ensures if ercd == E_OK && old(rwait) != []
              then rwait == old(rwait)[1..] && got == old(got)[old(rwait)[0] := data] else rwait == old(rwait) && got == old(got)
      ensures contents == if ercd == E_ILUSE || old(rwait) != [] then old(contents)
                          else (if old(|contents|) < dtqcnt then old(contents) else old(contents)[1..]) + [data]
    {
      if dtqcnt == 0 {
        return E_ILUSE;
      }
      if rwait != [] {
        got := got[rwait[0] := data];
        rwait := rwait[1..];
      } else {
        ForceEnqueueData(data);
      }
      ercd := E_OK;
    }

    /** receive_data: the place that becomes free goes to the first blocked sender. */
    method ReceiveData() returns (data: Option<int>, sender: Option<TaskId>)
      requires Inv()
      modifies dtqmb, `count, `head, `tail, `contents, `swait
      ensures Inv()
      ensures if old(Pending()) == [] then data == None && Pending() == []
              else data == Some(old(Pending())[0]) && Pending() == old(Pending())[1..]
      ensures if old(swait) == [] then sender == None && swait == [] else sender == Some(old(swait)[0].task) && swait == old(swait)[1..]
      ensures old(swait) != [] ==> count == dtqcnt
    {
      sender := None;
      if count > 0 {
        var d := DequeueData();
        data := Some(d);
        if swait != [] {
          sender := Some(swait[0].task);
          EnqueueData(swait[0].info);
          swait := swait[1..];
        }
      } else if swait != [] {
        sender := Some(swait[0].task);
        data := Some(swait[0].info);
        swait := swait[1..];
      } else {
        data := None;
      }
    }

    /** rcv_dtq, prcv_dtq and trcv_dtq, for task t. */
    method RcvDtq(t: TaskId, raster: bool, tmo: Tmo) returns (ercd: Option<Error>, data: Option<int>, sender: Option<TaskId>)
      requires Inv()
      modifies this, dtqmb
      ensures Inv()
      ensures ercd == if raster then Some(E_RASTER) else if old(Pending()) != [] then Some(E_OK)
                      else if tmo.Poll? then Some(E_TMOUT) else None
      ensures if ercd == Some(E_OK) then data == Some(old(Pending())[0]) && Pending() == old(Pending())[1..]
              else data == None && Pending() == old(Pending())
      ensures rwait == if ercd == None then old(rwait) + [t] else old(rwait)
      ensures if ercd == Some(E_OK) && old(swait) != []
              then sender == Some(old(swait)[0].task) && swait == old(swait)[1..] else sender == None && swait == old(swait)
    {
      hide RingOk;
      data, sender := None, None;
      if raster {
        ercd := Some(E_RASTER);
      } else {
        data, sender := ReceiveData();
        CountFull();
        if data.Some? {
          ercd := Some(E_OK);
        } else if tmo.Poll? {
          ercd := Some(E_TMOUT);
        } else {
          rwait := rwait + [t];
          ercd := None;
        }
      }
    }

    /** The i-th blocked sender stops waiting: only its data is withdrawn. */
    method SenderLeaves(i: nat)
      requires Inv() && i < |swait|
      modifies `swait
      ensures Inv() && swait == old(swait)[..i] + old(swait)[i + 1..]
      ensures Pending() == old(Pending())[..|contents| + i] + old(Pending())[|contents| + i + 1..]
    {
      hide RingOk;
      swait := swait[..i] + swait[i + 1..];
    }

    /** The i-th blocked sender gets another priority. */
    method SenderChangesPriority(i: nat, pri: nat)
      requires Inv() && i < |swait|
      modifies `swait
      ensures Inv() && swait == Requeue(old(swait), i, pri, byPriority)
    {
      hide RingOk, ByPriority, Requeue;
      if byPriority {
        RequeueKeepsOrder(swait, i, pri);
      }
      swait := Requeue(swait, i, pri, byPriority);
    }

    /** The i-th blocked receiver stops waiting. */
    method ReceiverLeaves(i: nat)
      requires Inv() && i < |rwait|
      modifies `rwait
      ensures Inv() && rwait == old(rwait)[..i] + old(rwait)[i + 1..]
    {
      hide RingOk, ByPriority;
      rwait := rwait[..i] + rwait[i + 1..];
    }

    /** ini_dtq */
    method IniDtq() returns (released: seq<TaskId>)
      requires Inv()
      modifies `count, `head, `tail, `contents, `swait, `rwait
      ensures Inv() && contents == [] && swait == [] && rwait == []
      ensures released == Tasks(old(swait)) + old(rwait)
    {
      released := Tasks(swait) + rwait;
      swait, rwait := [], [];
      count, head, tail := 0, 0, 0;
      contents := [];
    }
  }

  /** The data of blocked senders. */
  function DataOf(s: seq<Sender>): (r: seq<int>)
    ensures |r| == |s| && forall k :: 0 <= k < |s| ==> r[k] == s[k].info
  {
    if s == [] then [] else [s[0].info] + DataOf(s[1..])
  }

  lemma DataOfConcat(s: seq<Sender>, r: seq<Sender>)
    ensures DataOf(s + r) == DataOf(s) + DataOf(r)
  {
  }
}
