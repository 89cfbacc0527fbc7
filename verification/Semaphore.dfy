/** Counting semaphores of hrp3_wo_tecs/kernel/semaphore.c. */
module Semaphore {
  import opened Common
  import opened WaitQueue

  class Semaphore {
    const maxsem: nat
    const isemcnt: nat
    const byPriority: bool

    var semcnt: nat
    var wait: seq<Waiter<()>>

    /** How many resources have been returned and taken since the last initialisation. */
    ghost var returned: nat
    ghost var taken: nat

    /** Nobody waits while there are resources, and none are lost or made up. */
    ghost predicate Inv()
      reads this
    {
      && semcnt <= maxsem && isemcnt <= maxsem
      && (wait != [] ==> semcnt == 0)
      && isemcnt + returned == semcnt + taken
      && (byPriority ==> ByPriority(wait))
    }

    /** initialize_semaphore */
    constructor (isemcnt: nat, maxsem: nat, byPriority: bool)
      requires isemcnt <= maxsem
      ensures Inv() && semcnt == isemcnt && wait == []
      ensures this.isemcnt == isemcnt && this.maxsem == maxsem && this.byPriority == byPriority
    {
      this.isemcnt, this.maxsem, this.byPriority := isemcnt, maxsem, byPriority;
      semcnt, wait, returned, taken := isemcnt, [], 0, 0;
    }

    /** sig_sem: a waiting task takes the resource at once. */
    method SigSem() returns (ercd: Error, task: Option<TaskId>)
      requires Inv()
      modifies `semcnt, `wait, `returned, `taken
      ensures Inv()
      ensures ercd == if old(wait) == [] && old(semcnt) == maxsem then E_QOVR else E_OK
      ensures task == if old(wait) == [] then None else Some(old(wait)[0].task)
      ensures wait == if old(wait) == [] then [] else old(wait)[1..]
      ensures semcnt == if old(wait) == [] && ercd == E_OK then old(semcnt) + 1 else old(semcnt)
      ensures returned == old(returned) + if ercd == E_OK then 1 else 0
    {
      hide ByPriority;
      task := None;
      if wait != [] {
        task := Some(wait[0].task);
        HeadLeaves(wait);
        wait := wait[1..];
        returned, taken := returned + 1, taken + 1;
        ercd := E_OK;
      } else if semcnt < maxsem {
        semcnt := semcnt + 1;
        returned := returned + 1;
        ercd := E_OK;
      } else {
        ercd := E_QOVR;
      }
    }

    /** wai_sem, pol_sem and twai_sem, for task t of priority pri. */
    method WaiSem(t: TaskId, pri: nat, raster: bool, tmo: Tmo) returns (ercd: Option<Error>)
      requires Inv()
      modifies `semcnt, `wait, `taken
      ensures Inv()
      ensures ercd == if raster then Some(E_RASTER) else if old(semcnt) >= 1 then Some(E_OK)
                      else if tmo.Poll? then Some(E_TMOUT) else None
      ensures semcnt == if ercd == Some(E_OK) then old(semcnt) - 1 else old(semcnt)
      ensures wait == if ercd == None then Join(old(wait), Waiter(t, pri, ()), byPriority) else old(wait)
      ensures taken == old(taken) + if ercd == Some(E_OK) then 1 else 0
    {
      hide ByPriority, Join;
      if raster {
        ercd := Some(E_RASTER);
      } else if semcnt >= 1 {
        semcnt := semcnt - 1;
        taken := taken + 1;
        ercd := Some(E_OK);
      } else if tmo.Poll? {
        ercd := Some(E_TMOUT);
      } else {
        if byPriority {
          JoinKeepsOrder(wait, Waiter(t, pri, ()));
        }
        wait := Join(wait, Waiter(t, pri, ()), byPriority);
        ercd := None;
      }
    }

    /** The i-th waiting task stops waiting. */
    method WaiterLeaves(i: nat)
      requires Inv() && i < |wait|
      modifies `wait
      ensures Inv() && wait == Leave(old(wait), i)
    {
      hide ByPriority;
      if byPriority {
        LeaveKeepsOrder(wait, i);
      }
      wait := wait[..i] + wait[i + 1..];
    }

    /** The i-th waiting task gets another priority. */
    method WaiterChangesPriority(i: nat, pri: nat)
      requires Inv() && i < |wait|
      modifies `wait
      ensures Inv() && wait == Requeue(old(wait), i, pri, byPriority)
    {
      hide ByPriority, Requeue;
      if byPriority {
        RequeueKeepsOrder(wait, i, pri);
      }
      wait := Requeue(wait, i, pri, byPriority);
    }

    /** ini_sem */
    method IniSem() returns (released: seq<TaskId>)
      requires Inv()
      modifies `semcnt, `wait, `returned, `taken
      ensures Inv() && wait == [] && semcnt == isemcnt && released == Tasks(old(wait))
    {
      released := Tasks(wait);
      wait, semcnt := [], isemcnt;
      returned, taken := 0, 0;
    }
  }
}
