/** The serial interface driver of hrp3_wo_tecs/syssvc/serial.c: tasks that read and write, and the
    callbacks of the device, share two ring buffers under the protection of two semaphores. A task's
    service call is a sequence of atomic steps, each a semaphore operation or a section with the CPU
    locked; steps of different tasks and callbacks may come in any order. */
module Serial {
  import opened Common
  import opened WaitQueue
  import Semaphore

  const FC_STOP: char := 19 as char
  const FC_START: char := 17 as char

  /** A ring buffer with its pointers. */
  class Ring {
    const buf: array<char>
    var readPtr: nat
    var writePtr: nat
    var count: nat
    ghost var contents: seq<char>

    ghost predicate Valid()
      reads this, buf
    {
      && buf.Length > 0 && readPtr < buf.Length
      && count == |contents| <= buf.Length
      && writePtr == Around(readPtr + count, buf.Length)
      && forall i :: 0 <= i < count ==> buf[Around(readPtr + i, buf.Length)] == contents[i]
    }

    constructor (bufsz: nat)
      requires bufsz > 0
      ensures Valid() && fresh(buf) && buf.Length == bufsz && contents == []
    {
      buf := new char[bufsz];
      readPtr, writePtr, count, contents := 0, 0, 0, [];
    }

    lemma Size()
      requires Valid()
      ensures count == |contents| <= buf.Length && buf.Length > 0
    {
    }

    method Put(c: char)
      requires Valid() && count < buf.Length
      modifies this, buf
      ensures Valid() && contents == old(contents) + [c] && count == old(count) + 1
    {
      buf[writePtr] := c;
      writePtr := writePtr + 1;
      if writePtr == buf.Length {
        writePtr := 0;
      }
      count := count + 1;
      contents := contents + [c];
    }

    method Take() returns (c: char)
      requires Valid() && count > 0
      modifies this
      ensures Valid() && old(contents) != [] && c == old(contents)[0] && contents == old(contents)[1..] && count == old(count) - 1
    {
      c := buf[readPtr];
      readPtr := readPtr + 1;
      if readPtr == buf.Length {
        readPtr := 0;
      }
      count := count - 1;
      contents := contents[1..];
    }
  }

  /** A service call of a task on one side of the port: what is left to do, the variable buffer_full or
      buffer_empty of the call, and whether the task is blocked on the semaphore. */
  datatype Call = Call(todo: nat, must: bool, blocked: bool)

  /** The tasks that wait for a semaphore are the blocked ones, each once. */
  ghost predicate QueueOk(calls: map<TaskId, Call>, wait: seq<Waiter<()>>) {
    && (forall i, j :: 0 <= i < j < |wait| ==> wait[i].task != wait[j].task)
    && (forall i :: 0 <= i < |wait| ==> wait[i].task in calls && calls[wait[i].task].blocked)
    && (forall t :: t in calls && calls[t].blocked ==> calls[t].must && calls[t].todo > 0 && Waits(wait, t))
  }

  ghost predicate Waits(wait: seq<Waiter<()>>, t: TaskId) {
    exists i :: 0 <= i < |wait| && wait[i].task == t
  }

  /** A task has the token exactly while its variable says that it need not wait for the semaphore, and
      at most one task has it. */
  ghost predicate HolderOk(calls: map<TaskId, Call>, holder: Option<TaskId>) {
    forall t :: t in calls ==> (!calls[t].must <==> holder == Some(t))
  }

  /** The count of the semaphore and the number of token holders add up to one while there is room to
      write, or something to read, and to zero otherwise. */
  ghost predicate TokenOk(sem: nat, holder: Option<TaskId>, available: bool) {
    sem + (if holder.Some? then 1 else 0) == if available then 1 else 0
  }

  /** One side of the port: the calls of the tasks on it and its semaphore. */
  class Side {
    const sem: Semaphore.Semaphore
    var calls: map<TaskId, Call>
    ghost var holder: Option<TaskId>

    ghost predicate Valid(available: bool)
      reads this, sem
    {
      && sem.Inv() && sem.maxsem == 1
      && QueueOk(calls, sem.wait)
      && HolderOk(calls, holder) && (holder.Some? ==> holder.value in calls)
      && TokenOk(sem.semcnt, holder, available)
    }

    constructor (available: bool)
      ensures Valid(available) && fresh(sem) && calls == map[] && holder == None
    {
      sem := new Semaphore.Semaphore(if available then 1 else 0, 1, true);
      calls, holder := map[], None;
    }

    /** A task begins a service call for n characters. The first turn of its loop waits. */
    method Begin(t: TaskId, n: nat, ghost available: bool)
      requires Valid(available) && t !in calls
      modifies this`calls
      ensures Valid(available) && calls == old(calls)[t := Call(n, true, false)]
    {
      hide QueueOk;
      NotQueued(calls, sem.wait, t);
      calls := calls[t := Call(n, true, false)];
    }

    /** wai_sem in the loop of a service call. */
    method Wait(t: TaskId, pri: nat, ghost available: bool)
      requires Valid(available) && t in calls && calls[t].must && calls[t].todo > 0 && !calls[t].blocked
      modifies this`calls, this`holder, sem
      ensures Valid(available)
      ensures if old(sem.semcnt) == 1 then calls == old(calls)[t := old(calls[t]).(must := false)] && holder == Some(t) && available
              else calls == old(calls)[t := old(calls[t]).(blocked := true)] && holder == old(holder)
    {
      hide QueueOk, Join;
      NotQueued(calls, sem.wait, t);
      var e := sem.WaiSem(t, pri, false, Forever);
      if e.Some? {
        calls := calls[t := calls[t].(must := false)];
        holder := Some(t);
      } else {
        JoinedQueue(calls, old(sem.wait), t, pri, sem.byPriority);
        calls := calls[t := calls[t].(blocked := true)];
      }
    }

    /** sig_sem, when the token has become available, or when its holder gives it back. It never fails. */
    method Signal() returns (ok: bool)
      requires Valid(false)
      modifies this`calls, this`holder, sem
      ensures ok && Valid(true)
      ensures if old(sem.wait) == [] then calls == old(calls) && holder == None
              else var t := old(sem.wait)[0].task;
                   holder == Some(t) && t in old(calls) && calls == old(calls)[t := old(calls[t]).(must := false, blocked := false)]
    {
      hide QueueOk;
      ghost var wait := sem.wait;
      var e, task := sem.SigSem();
      ok := e == E_OK;
      if task.Some? {
        HeadQueued(calls, wait);
        assert wait[..0] + wait[0 + 1..] == wait[1..];
        LeftQueue(calls, wait, 0, Some(calls[task.value].(must := false, blocked := false)));
        calls := calls[task.value := calls[task.value].(must := false, blocked := false)];
        holder := task;
      }
    }

    /** The holder has used one character's room; last says that there is no more. */
    method Use(t: TaskId, last: bool)
      requires Valid(true) && t in calls && !calls[t].must && calls[t].todo > 0
      modifies this`calls, this`holder
      ensures Valid(!last) && holder == if last then None else Some(t)
      ensures calls == old(calls)[t := Call(old(calls[t]).todo - 1, last, false)]
    {
      hide QueueOk;
      BlockedMust(calls, sem.wait, t);
      NotQueued(calls, sem.wait, t);
      calls := calls[t := Call(calls[t].todo - 1, last, false)];
      if last {
        holder := None;
      }
    }

    /** The end of a service call: a token that is left is given back. */
    method Finish(t: TaskId, ghost available: bool) returns (ok: bool)
      requires Valid(available) && t in calls && calls[t].todo == 0 && !calls[t].blocked
      modifies this`calls, this`holder, sem
      ensures ok && Valid(available) && calls.Keys == old(calls).Keys - {t}
      ensures forall u :: u in calls ==> calls[u].todo == old(calls)[u].todo
    {
      hide QueueOk;
      NotQueued(calls, sem.wait, t);
      var had := !calls[t].must;
      calls := calls - {t};
      ok := true;
      if had {
        holder := None;
        ok := Signal();
      }
    }

    /** A blocked task's wait is released, and its service call ends without the token. */
    method Abandon(t: TaskId, ghost available: bool)
      requires Valid(available) && t in calls && calls[t].blocked
      modifies this`calls, sem`wait
      ensures Valid(available) && calls == old(calls) - {t}
    {
      hide QueueOk;
      BlockedQueued(calls, sem.wait, t);
      var i := 0;
      while sem.wait[i].task != t
        invariant i < |sem.wait| && exists k :: i <= k < |sem.wait| && sem.wait[k].task == t
        decreases |sem.wait| - i
      {
        i := i + 1;
      }
      LeftQueue(calls, sem.wait, i, None);
      sem.WaiterLeaves(i);
      calls := calls - {t};
    }
  }

  lemma HeadQueued(calls: map<TaskId, Call>, wait: seq<Waiter<()>>)
    requires QueueOk(calls, wait) && wait != []
    ensures wait[0].task in calls && calls[wait[0].task].blocked && calls[wait[0].task].must && calls[wait[0].task].todo > 0
  {
  }

  lemma BlockedQueued(calls: map<TaskId, Call>, wait: seq<Waiter<()>>, t: TaskId)
    requires QueueOk(calls, wait) && t in calls && calls[t].blocked
    ensures Waits(wait, t) && calls[t].must
  {
  }

  lemma BlockedMust(calls: map<TaskId, Call>, wait: seq<Waiter<()>>, t: TaskId)
    requires QueueOk(calls, wait) && t in calls && !calls[t].must
    ensures !calls[t].blocked
  {
  }

  /** A task that is not blocked may change its call otherwise, or end it. */
  lemma NotQueued(calls: map<TaskId, Call>, wait: seq<Waiter<()>>, t: TaskId)
    requires QueueOk(calls, wait) && (t in calls ==> !calls[t].blocked)
    ensures forall c: Call :: !c.blocked ==> QueueOk(calls[t := c], wait)
    ensures QueueOk(calls - {t}, wait)
  {
  }

  lemma JoinedQueue(calls: map<TaskId, Call>, wait: seq<Waiter<()>>, t: TaskId, pri: nat, byPriority: bool)
    requires QueueOk(calls, wait) && t in calls && !calls[t].blocked && calls[t].must && calls[t].todo > 0
    ensures QueueOk(calls[t := calls[t].(blocked := true)], Join(wait, Waiter(t, pri, ()), byPriority))
  {
    hide Join, Spot;
    var r := Join(wait, Waiter(t, pri, ()), byPriority);
    forall i: nat | i < |r|
      ensures r[i].task == t || exists j: nat :: j < |wait| && r[i] == wait[j]
    {
      JoinAt(wait, Waiter(t, pri, ()), byPriority, i);
    }
    JoinedOnce(wait, t, pri, byPriority);
    forall u | u == t || (u in calls && calls[u].blocked)
      ensures Waits(r, u)
    {
      JoinedWaits(wait, t, pri, byPriority, u);
    }
  }

  lemma JoinedOnce(wait: seq<Waiter<()>>, t: TaskId, pri: nat, byPriority: bool)
    requires !Waits(wait, t) && forall i, j :: 0 <= i < j < |wait| ==> wait[i].task != wait[j].task
    ensures var r := Join(wait, Waiter(t, pri, ()), byPriority);
            forall i, j :: 0 <= i < j < |r| ==> r[i].task != r[j].task
  {
    hide Join, Spot;
    var r := Join(wait, Waiter(t, pri, ()), byPriority);
    forall i: nat, j: nat | i < j < |r|
      ensures r[i].task != r[j].task
    {
      JoinAt(wait, Waiter(t, pri, ()), byPriority, i);
      JoinAt(wait, Waiter(t, pri, ()), byPriority, j);
    }
  }

  lemma JoinedWaits(wait: seq<Waiter<()>>, t: TaskId, pri: nat, byPriority: bool, u: TaskId)
    requires u == t || Waits(wait, u)
    ensures Waits(Join(wait, Waiter(t, pri, ()), byPriority), u)
  {
    hide Join, Spot;
    var k := if byPriority then Spot(wait, pri) else |wait|;
    if u == t {
      JoinAt(wait, Waiter(t, pri, ()), byPriority, k);
    } else {
      var i: nat :| i < |wait| && wait[i].task == u;
      JoinAt(wait, Waiter(t, pri, ()), byPriority, if i < k then i else i + 1);
    }
  }

  /** The k-th task leaves the queue, with or without ending its call. */
  lemma LeftQueue(calls: map<TaskId, Call>, wait: seq<Waiter<()>>, k: nat, c: Option<Call>)
    requires QueueOk(calls, wait) && k < |wait|
    requires c.Some? ==> !c.value.blocked
    ensures QueueOk(if c == None then calls - {wait[k].task} else calls[wait[k].task := c.value], wait[..k] + wait[k + 1..])
  {
    var calls' := if c == None then calls - {wait[k].task} else calls[wait[k].task := c.value];
    var r := wait[..k] + wait[k + 1..];
    forall i | 0 <= i < |r|
      ensures r[i] == wait[if i < k then i else i + 1]
    {
    }
    forall u | u in calls' && calls'[u].blocked
      ensures Waits(r, u)
    {
      assert u != wait[k].task && calls[u] == calls'[u];
      var i: nat :| i < |wait| && wait[i].task == u;
      assert r[if i < k then i else i - 1] == wait[i];
    }
  }

  // ---------- The port ----------

  /** BUFCNT_STOP and BUFCNT_START: how full the buffer is when STOP and START are sent. */
  function StopCount(bufsz: nat): nat {
    bufsz * 3 / 4
  }

  function StartCount(bufsz: nat): nat {
    bufsz / 2
  }

  class Port {
    const snd: Ring
    const rcv: Ring
    const writers: Side
    const readers: Side

    var errorflag: bool
    /** IOCTL_FCSND, IOCTL_FCANY and IOCTL_FCRCV */
    var fcSnd: bool
    var fcAny: bool
    var fcRcv: bool
    var rcvFcChr: Option<char>
    var rcvStopped: bool
    var sndStopped: bool

    /** What the writing tasks still have to write. */
    var texts: map<TaskId, seq<char>>

    /** All characters that tasks have written and that have gone to the device; all that have been put
        into the receive buffer and that tasks have read. */
    ghost var written: seq<char>
    ghost var sent: seq<char>
    ghost var received: seq<char>
    ghost var read: seq<char>

    ghost predicate Apart() {
      snd != rcv && snd.buf != rcv.buf && writers != readers && writers.sem != readers.sem
    }

    ghost predicate SendOk()
      reads `texts, `written, `sent, snd, snd.buf, writers, writers.sem
    {
      && snd.Valid()
      && writers.Valid(snd.count < snd.buf.Length)
      && written == sent + snd.contents
      && texts.Keys == writers.calls.Keys && forall t :: t in texts ==> |texts[t]| == writers.calls[t].todo
    }

    ghost predicate ReceiveOk()
      reads `received, `read, rcv, rcv.buf, readers, readers.sem
    {
      && rcv.Valid()
      && readers.Valid(rcv.count > 0)
      && received == read + rcv.contents
    }

    ghost predicate Inv()
      reads this, snd, snd.buf, writers, writers.sem, rcv, rcv.buf, readers, readers.sem
    {
      Apart() && SendOk() && ReceiveOk() && !errorflag
    }

    /** serial_opn_por, for a port whose semaphores are in their initial states */
    constructor (sndBufsz: nat, rcvBufsz: nat)
      requires sndBufsz > 0 && rcvBufsz > 0
      ensures Inv() && written == [] && received == []
    {
      var s := new Ring(sndBufsz);
      var r := new Ring(rcvBufsz);
      var w := new Side(true);
      var d := new Side(false);
      snd, rcv, writers, readers := s, r, w, d;
      errorflag, fcSnd, fcAny, fcRcv, rcvFcChr, rcvStopped, sndStopped := false, true, false, true, None, false, false;
      texts, written, sent, received, read := map[], [], [], [], [];
    }

    /** serial_ctl_por */
    method CtlPor(snd: bool, any: bool, rcv: bool)
      requires Inv()
      modifies `fcSnd, `fcAny, `fcRcv
      ensures Inv() && fcSnd == snd && fcAny == any && fcRcv == rcv
    {
      hide QueueOk, HolderOk, TokenOk, Side.Valid, Ring.Valid;
      fcSnd, fcAny, fcRcv := snd, any, rcv;
    }

    // ---------- Writing ----------

    /** A task calls serial_wri_dat with a text in which CR has been put before LF if that is wanted. */
    method WriteBegin(t: TaskId, text: seq<char>)
      requires Inv() && t !in writers.calls
      modifies `texts, writers`calls
      ensures Inv() && texts == old(texts)[t := text]
    {
      hide QueueOk, HolderOk, TokenOk, Side.Valid, Ring.Valid;
      writers.Begin(t, |text|, snd.count < snd.buf.Length);
      texts := texts[t := text];
    }

    /** The section of serial_wri_chr with the CPU locked. The holder of the token finds room. */
    method WriChr(t: TaskId, registerFree: bool)
      requires Inv() && t in writers.calls && !writers.calls[t].must && writers.calls[t].todo > 0
      modifies `texts, `written, `sent, snd, snd.buf, writers`calls, writers`holder
      ensures Inv() && t in old(texts) && old(texts[t]) != [] && texts == old(texts)[t := old(texts[t])[1..]]
      ensures written == old(written) + [old(texts[t])[0]]
      ensures sent == old(sent) + if old(snd.contents) == [] && !sndStopped && registerFree then [old(texts[t])[0]] else []
    {
      hide QueueOk, HolderOk, TokenOk, Side.Valid, Ring.Valid;
      var c := texts[t][0];
      TokenMeansRoom(t);
      snd.Size();
      texts := texts[t := texts[t][1..]];
      if snd.count == 0 && !sndStopped && registerFree {
        sent := sent + [c];
        writers.Use(t, false);
      } else {
        snd.Put(c);
        writers.Use(t, snd.count == snd.buf.Length);
      }
      written := written + [c];
    }

    /** A writer with the token: there is room for a character. */
    lemma TokenMeansRoom(t: TaskId)
      requires Inv() && t in writers.calls && !writers.calls[t].must
      ensures snd.count < snd.buf.Length
    {
    }

    /** A reader with the token: there is something to read. */
    lemma TokenMeansData(t: TaskId)
      requires Inv() && t in readers.calls && !readers.calls[t].must
      ensures rcv.count > 0
    {
    }

    /** The next atomic step of a task that is not blocked in serial_wri_dat: it waits for the token,
        writes a character, or returns. */
    method WriteStep(t: TaskId, pri: nat, registerFree: bool)
      requires Inv() && t in writers.calls && !writers.calls[t].blocked
      modifies `texts, `written, `sent, `errorflag, snd, snd.buf, writers, writers.sem
      ensures Inv()
      ensures t in old(texts) && old(writers.calls[t]).todo == |old(texts[t])|
      ensures written == old(written) + if old(texts[t]) != [] && !old(writers.calls[t]).must then [old(texts[t])[0]] else []
      ensures sent == old(sent) + if written != old(written) && old(snd.contents) == [] && !sndStopped && registerFree then [old(texts[t])[0]] else []
      ensures old(texts[t]) != [] && old(writers.calls[t]).must ==>
        var call := old(writers.calls[t]);
        writers.calls == old(writers.calls)[t := if old(writers.sem.semcnt) == 1 then call.(must := false) else call.(blocked := true)]
      ensures texts == if old(texts[t]) == [] then old(texts) - {t}
                       else if old(writers.calls[t]).must then old(texts) else old(texts)[t := old(texts[t])[1..]]
    {
      hide QueueOk, HolderOk, TokenOk, Side.Valid, Ring.Valid;
      var call := writers.calls[t];
      if call.todo > 0 {
        if call.must {
          writers.Wait(t, pri, snd.count < snd.buf.Length);
        } else {
          WriChr(t, registerFree);
        }
      } else {
        WriteEnd(t);
      }
    }

    /** The end of serial_wri_dat. */
    method WriteEnd(t: TaskId)
      requires Inv() && t in writers.calls && writers.calls[t].todo == 0 && !writers.calls[t].blocked
      modifies `texts, `errorflag, writers, writers.sem
      ensures Inv() && texts == old(texts) - {t}
    {
      hide QueueOk, HolderOk, TokenOk, Side.Valid, Ring.Valid;
      var ok := writers.Finish(t, snd.count < snd.buf.Length);
      texts := texts - {t};
      errorflag := errorflag || !ok;
    }

    /** A blocked writer's wait is released, and its call returns. */
    method WriteAbandon(t: TaskId)
      requires Inv() && t in writers.calls && writers.calls[t].blocked
      modifies `texts, writers`calls, writers.sem`wait
      ensures Inv() && t !in writers.calls
    {
      hide QueueOk, HolderOk, TokenOk, Side.Valid, Ring.Valid;
      writers.Abandon(t, snd.count < snd.buf.Length);
      texts := texts - {t};
    }

    /** The next character of the send buffer goes to the device. If the buffer was full a writer can go
        on. */
    method SendNext()
      requires Inv() && snd.count > 0
      modifies `sent, `errorflag, snd, writers, writers.sem
      ensures Inv() && sent == old(sent) + [old(snd.contents)[0]] && snd.contents == old(snd.contents)[1..]
      ensures writers.calls.Keys == old(writers.calls.Keys)
    {
      hide QueueOk, HolderOk, TokenOk, Side.Valid, Ring.Valid;
      snd.Size();
      if snd.count == snd.buf.Length {
        var ok := writers.Signal();
        errorflag := errorflag || !ok;
      }
      var c := snd.Take();
      sent := sent + [c];
    }

    /** sio_irdy_snd: the device takes one character. */
    method IrdySnd()
      requires Inv()
      modifies `sent, `errorflag, `rcvFcChr, snd, writers, writers.sem
      ensures Inv()
      ensures sent == old(sent) + if old(rcvFcChr) == None && !sndStopped && old(snd.contents) != [] then [old(snd.contents)[0]] else []
      ensures rcvFcChr == None
    {
      hide QueueOk, HolderOk, TokenOk, Side.Valid, Ring.Valid;
      snd.Size();
      if rcvFcChr.Some? {
        rcvFcChr := None;
      } else if !sndStopped && snd.count > 0 {
        SendNext();
      }
    }

    // ---------- Reading ----------

    /** A task calls serial_rea_dat. */
    method ReadBegin(t: TaskId, n: nat)
      requires Inv() && t !in readers.calls
      modifies readers`calls
      ensures Inv() && readers.calls == old(readers.calls)[t := Call(n, true, false)]
    {
      hide QueueOk, HolderOk, TokenOk, Side.Valid, Ring.Valid;
      readers.Begin(t, n, rcv.count > 0);
    }

    /** The section of serial_rea_chr with the CPU locked. The holder of the token finds a character. */
    method ReaChr(t: TaskId, registerFree: bool) returns (c: char)
      requires Inv() && t in readers.calls && !readers.calls[t].must && readers.calls[t].todo > 0
      modifies `read, `rcvFcChr, `rcvStopped, rcv, readers`calls, readers`holder
      ensures Inv() && old(rcv.contents) != [] && c == old(rcv.contents)[0] && read == old(read) + [c]
      ensures rcvStopped == (old(rcvStopped) && rcv.count > rcv.buf.Length / 2)
      ensures rcvFcChr == if old(rcvStopped) && !rcvStopped && !registerFree then Some(FC_START) else old(rcvFcChr)
      ensures readers.calls == old(readers.calls)[t := Call(old(readers.calls[t]).todo - 1, rcv.count == 0, false)]
    {
      hide QueueOk, HolderOk, TokenOk, Side.Valid, Ring.Valid;
      TokenMeansData(t);
      rcv.Size();
      c := rcv.Take();
      read := read + [c];
      readers.Use(t, rcv.count == 0);
      if rcvStopped && rcv.count <= StartCount(rcv.buf.Length) {
        if !registerFree {
          rcvFcChr := Some(FC_START);
        }
        rcvStopped := false;
      }
    }

    /** The next atomic step of a task that is not blocked in serial_rea_dat, without echo. */
    method ReadStep(t: TaskId, pri: nat, registerFree: bool) returns (c: Option<char>)
      requires Inv() && t in readers.calls && !readers.calls[t].blocked
      modifies `read, `rcvFcChr, `rcvStopped, `errorflag, rcv, readers, readers.sem
      ensures Inv() && read == old(read) + if c.Some? then [c.value] else []
      ensures c == if old(readers.calls[t]).todo > 0 && !old(readers.calls[t]).must then Some(old(received)[|old(read)|]) else None
      ensures t in readers.calls <==> old(readers.calls[t]).todo > 0
      ensures old(readers.calls[t]).todo > 0 && old(readers.calls[t]).must ==>
        var call := old(readers.calls[t]);
        readers.calls == old(readers.calls)[t := if old(readers.sem.semcnt) == 1 then call.(must := false) else call.(blocked := true)]
      ensures t in readers.calls ==> readers.calls[t].todo == old(readers.calls[t]).todo - if c.Some? then 1 else 0
    {
      hide QueueOk, HolderOk, TokenOk, Side.Valid, Ring.Valid;
      c := None;
      var call := readers.calls[t];
      if call.todo > 0 {
        if call.must {
          readers.Wait(t, pri, rcv.count > 0);
        } else {
          var x := ReaChr(t, registerFree);
          c := Some(x);
        }
      } else {
        var ok := readers.Finish(t, rcv.count > 0);
        errorflag := errorflag || !ok;
      }
    }

    /** A blocked reader's wait is released, and its call returns. */
    method ReadAbandon(t: TaskId)
      requires Inv() && t in readers.calls && readers.calls[t].blocked
      modifies readers`calls, readers.sem`wait
      ensures Inv() && t !in readers.calls
    {
      hide QueueOk, HolderOk, TokenOk, Side.Valid, Ring.Valid;
      readers.Abandon(t, rcv.count > 0);
    }

    /** A received character is put into the buffer. If the buffer was empty a reader can go on. */
    method PutReceived(c: char)
      requires Inv() && rcv.count < rcv.buf.Length
      modifies `received, `errorflag, rcv, rcv.buf, readers, readers.sem
      ensures Inv() && received == old(received) + [c] && rcv.count == old(rcv.count) + 1
    {
      hide QueueOk, HolderOk, TokenOk, Side.Valid, Ring.Valid;
      if rcv.count == 0 {
        var ok := readers.Signal();
        errorflag := errorflag || !ok;
      }
      rcv.Put(c);
      received := received + [c];
    }

    /** The part of sio_irdy_rcv that lets writing go on. The device's register takes up to room
        characters at once. */
    method Resume(room: nat)
      requires Inv()
      modifies `sent, `errorflag, `sndStopped, snd, writers, writers.sem
      ensures Inv() && !sndStopped
      ensures sent == old(sent) + old(snd.contents)[..if room < |old(snd.contents)| then room else |old(snd.contents)|]
    {
      hide QueueOk, HolderOk, TokenOk, Side.Valid, Ring.Valid;
      snd.Size();
      sndStopped := false;
      var left := room;
      ghost var n := 0;
      while snd.count > 0 && left > 0
        invariant Inv() && !sndStopped && n == room - left <= |old(snd.contents)|
        invariant sent == old(sent) + old(snd.contents)[..n] && snd.contents == old(snd.contents)[n..]
        decreases left
      {
        SendNext();
        left := left - 1;
        n := n + 1;
        snd.Size();
      }
      snd.Size();
    }

    /** sio_irdy_rcv: the device has received character c. When it lets writing go on, its register takes
        up to room characters at once. */
    method IrdyRcv(c: char, room: nat, registerFree: bool)
      requires Inv()
      modifies this, snd, writers, writers.sem, rcv, rcv.buf, readers, readers.sem
      ensures Inv() && written == old(written) && read == old(read)
      ensures var stop := fcSnd && c == FC_STOP; var go := !stop && old(sndStopped) && (c == FC_START || fcAny);
              && sndStopped == (stop || (old(sndStopped) && !go))
              && received == old(received) + (if stop || go || (fcSnd && c == FC_START) || old(rcv.count) == rcv.buf.Length then [] else [c])
              && sent == old(sent) + if go then old(snd.contents)[..if room < |old(snd.contents)| then room else |old(snd.contents)|] else []
      ensures fcSnd == old(fcSnd) && fcAny == old(fcAny)
      ensures var stopping := received != old(received) && fcRcv && !old(rcvStopped) && rcv.count >= rcv.buf.Length * 3 / 4;
              && rcvStopped == (old(rcvStopped) || stopping)
              && rcvFcChr == if stopping && !registerFree then Some(FC_STOP) else old(rcvFcChr)
    {
      hide QueueOk, HolderOk, TokenOk, Side.Valid, Ring.Valid;
      rcv.Size();
      if fcSnd && c == FC_STOP {
        sndStopped := true;
      } else if sndStopped && (c == FC_START || fcAny) {
        Resume(room);
      } else if fcSnd && c == FC_START {
      } else if rcv.count == rcv.buf.Length {
      } else {
        PutReceived(c);
        if fcRcv && !rcvStopped && rcv.count >= StopCount(rcv.buf.Length) {
          if !registerFree {
            rcvFcChr := Some(FC_STOP);
          }
          rcvStopped := true;
        }
      }
    }

    // ---------- What the invariant means ----------

    /** Nobody is blocked while the token lies idle. */
    lemma NobodyBlocked(t: TaskId)
      requires Inv() && t in writers.calls && writers.calls[t].blocked
      ensures writers.sem.semcnt == 0
      ensures snd.count == snd.buf.Length || exists u :: u in writers.calls && !writers.calls[u].must
    {
      BlockedQueued(writers.calls, writers.sem.wait, t);
      assert writers.sem.wait != [];
    }
  }
}
