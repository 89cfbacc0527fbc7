/** Event flags of hrp3_wo_tecs/kernel/eventflag.c. */
module EventFlag {
  import opened Common
  import opened WaitQueue
  import opened Bits

  type Flgptn = Pattern

  /** What a task waits for: some bits of a pattern, or all of them. */
  datatype Cond = Cond(waiptn: Flgptn, orMode: bool)

  type FlagWaiter = Waiter<Cond>

  /** wai_flg refuses a condition without bits. */
  predicate NoBits(c: Cond) {
    c.waiptn == 0
  }

  predicate Satisfied(flgptn: Flgptn, c: Cond) {
    if c.orMode then AnyOf(flgptn, c.waiptn) else AllOf(flgptn, c.waiptn)
  }

  /** What that means, bit by bit: one of the bits waited for is set, or all of them are. */
  ghost predicate Meets(p: Flgptn, c: Cond) {
    if c.orMode then exists i: nat :: i < 32 && Bit(p, i) && Bit(c.waiptn, i)
    else forall i: nat :: i < 32 && Bit(c.waiptn, i) ==> Bit(p, i)
  }

  lemma SatisfiedIffMet(p: Flgptn, c: Cond)
    ensures Satisfied(p, c) <==> Meets(p, c)
  {
    hide Bit, AnyOf, AllOf;
    AnyBit(p, c.waiptn);
    AllBits(p, c.waiptn);
  }

  lemma AndZero(w: Flgptn)
    ensures 0 & w == 0
  {
  }

  lemma AndSwap(f: Flgptn, c: Flgptn, w: Flgptn)
    ensures (f & c) & w == (f & w) & c
  {
  }

  lemma AndAbsorb(f: Flgptn, c: Flgptn, w: Flgptn)
    ensures ((f & c) & w) & f == (f & c) & w
  {
  }

  lemma AndCommutes(f: Flgptn, w: Flgptn)
    ensures f & w == w & f
  {
  }

  /** The empty pattern satisfies nobody. */
  lemma NothingSatisfied(c: Cond)
    requires !NoBits(c)
    ensures !Satisfied(0, c)
  {
    AndZero(c.waiptn);
  }

  /** Bits that are cleared satisfy nobody. */
  lemma ClearingSatisfiesNobody(flgptn: Flgptn, clrptn: Flgptn, c: Cond)
    requires !Satisfied(flgptn, c)
    ensures !Satisfied(flgptn & clrptn, c)
  {
    if c.orMode {
      ClearedAny(flgptn, clrptn, c.waiptn);
    } else {
      ClearedAll(flgptn, clrptn, c.waiptn);
    }
  }

  lemma ClearedAny(flgptn: Flgptn, clrptn: Flgptn, w: Flgptn)
    requires flgptn & w == 0
    ensures (flgptn & clrptn) & w == 0
  {
    AndSwap(flgptn, clrptn, w);
    AndZero(clrptn);
  }

  lemma ClearedAll(flgptn: Flgptn, clrptn: Flgptn, w: Flgptn)
    ensures (flgptn & clrptn) & w == w ==> flgptn & w == w
  {
    AndAbsorb(flgptn, clrptn, w);
    AndCommutes(flgptn, w);
  }

  /** The tasks of s whose conditions pattern p satisfies, and the others. */
  function Freed(s: seq<FlagWaiter>, p: Flgptn): (r: seq<FlagWaiter>) {
    if s == [] then []
    else
      var r := Freed(s[..|s| - 1], p);
      if Satisfied(p, s[|s| - 1].info) then r + [s[|s| - 1]] else r
  }

  function Kept(s: seq<FlagWaiter>, p: Flgptn): (r: seq<FlagWaiter>)
    ensures |r| <= |s|
  {
    if s == [] then []
    else
      var r := Kept(s[..|s| - 1], p);
      if Satisfied(p, s[|s| - 1].info) then r else r + [s[|s| - 1]]
  }

  lemma {:induction false} FreedAndKeptHold(s: seq<FlagWaiter>, p: Flgptn)
    ensures forall w :: w in Freed(s, p) <==> w in s && Satisfied(p, w.info)
    ensures forall w :: w in Kept(s, p) <==> w in s && !Satisfied(p, w.info)
  {
    hide Satisfied;
    if s != [] {
      FreedAndKeptHold(s[..|s| - 1], p);
      assert s == s[..|s| - 1] + [s[|s| - 1]];
    }
  }

  /** Together they are all tasks, each once. */
  lemma {:induction false} FreedAndKept(s: seq<FlagWaiter>, p: Flgptn)
    ensures multiset(Freed(s, p)) + multiset(Kept(s, p)) == multiset(s)
  {
    if s != [] {
      FreedAndKept(s[..|s| - 1], p);
      assert s == s[..|s| - 1] + [s[|s| - 1]];
    }
  }

  /** Who is released, and who is not, and in which order. */
  lemma {:induction false} PartsByBits(s: seq<FlagWaiter>, w: FlagWaiter, p: Flgptn)
    ensures Freed([], p) == [] && Kept([], p) == []
    ensures Freed(s + [w], p) == if Meets(p, w.info) then Freed(s, p) + [w] else Freed(s, p)
    ensures Kept(s + [w], p) == if Meets(p, w.info) then Kept(s, p) else Kept(s, p) + [w]
  {
    hide Satisfied, Meets;
    SatisfiedIffMet(p, w.info);
    var r := s + [w];
    assert r[..|r| - 1] == s && r[|r| - 1] == w;
  }

  lemma AllByBits(s: seq<FlagWaiter>, p: Flgptn)
    ensures forall w :: w in Kept(s, p) <==> w in s && !Meets(p, w.info)
    ensures forall w :: w in Freed(s, p) <==> w in s && Meets(p, w.info)
    ensures Freed(s, p) == [] <==> forall w :: w in s ==> !Meets(p, w.info)
  {
    hide Satisfied, Meets, Kept, Freed;
    FreedAndKeptHold(s, p);
    forall w: FlagWaiter
      ensures Satisfied(p, w.info) <==> Meets(p, w.info)
    {
      SatisfiedIffMet(p, w.info);
    }
    if Freed(s, p) != [] {
      assert Freed(s, p)[0] in Freed(s, p);
    }
  }

  lemma FirstByBits(s: seq<FlagWaiter>, k: nat, p: Flgptn, s': seq<FlagWaiter>, released: seq<TaskId>)
    requires FirstFreed(s, k, p, s', released)
    ensures k < |s| && Meets(p, s[k].info) && forall i :: 0 <= i < k ==> !Meets(p, s[i].info)
    ensures s' == s[..k] + s[k + 1..] && released == [s[k].task]
  {
    hide Satisfied, Meets;
    forall i | 0 <= i <= k
      ensures Satisfied(p, s[i].info) <==> Meets(p, s[i].info)
    {
      SatisfiedIffMet(p, s[i].info);
    }
  }

  /** The first k tasks stay waiting. */
  ghost predicate NoneOf(s: seq<FlagWaiter>, k: nat, p: Flgptn) {
    k <= |s| && forall i :: 0 <= i < k ==> !Satisfied(p, s[i].info)
  }

  /** Of the tasks of s, the first whose condition is satisfied, the k-th, goes on. */
  ghost predicate FirstFreed(s: seq<FlagWaiter>, k: nat, p: Flgptn, s': seq<FlagWaiter>, released: seq<TaskId>) {
    && k < |s| && NoneOf(s, k, p) && Satisfied(p, s[k].info)
    && s' == s[..k] + s[k + 1..] && released == [s[k].task]
  }

  /** One more task is looked at. */
  lemma ScanStep(s: seq<FlagWaiter>, n: nat, p: Flgptn)
    requires n < |s|
    ensures var sat := Satisfied(p, s[n].info);
            && Kept(s[..n + 1], p) == (if sat then Kept(s[..n], p) else Kept(s[..n], p) + [s[n]])
            && Freed(s[..n + 1], p) == (if sat then Freed(s[..n], p) + [s[n]] else Freed(s[..n], p))
  {
    hide Satisfied;
    assert s[..n + 1][..n] == s[..n] && s[..n + 1][n] == s[n];
  }

  /** The state of the loop of set_flg, after n tasks of the old queue s have been looked at: those
      that are kept come first in the queue. */
  ghost predicate Scanning(s: seq<FlagWaiter>, n: nat, p: Flgptn, wait: seq<FlagWaiter>, i: nat, released: seq<TaskId>) {
    && n <= |s| && wait == Kept(s[..n], p) + s[n..] && i == |Kept(s[..n], p)|
    && released == Tasks(Freed(s[..n], p))
  }

  lemma ScanStart(s: seq<FlagWaiter>, p: Flgptn)
    ensures Scanning(s, 0, p, s, 0, [])
  {
    assert Tasks<Cond>([]) == [];
  }

  lemma ScanNext(s: seq<FlagWaiter>, n: nat, p: Flgptn, wait: seq<FlagWaiter>, i: nat, released: seq<TaskId>)
    requires Scanning(s, n, p, wait, i, released) && i < |wait|
    ensures n < |s| && wait[i] == s[n]
    ensures Satisfied(p, s[n].info) ==> Scanning(s, n + 1, p, wait[..i] + wait[i + 1..], i, released + [s[n].task])
    ensures !Satisfied(p, s[n].info) ==> Scanning(s, n + 1, p, wait, i + 1, released)
  {
    hide Satisfied, Kept, Freed;
    ScanStep(s, n, p);
  }

  lemma ScanEnd(s: seq<FlagWaiter>, n: nat, p: Flgptn, wait: seq<FlagWaiter>, i: nat, released: seq<TaskId>)
    requires Scanning(s, n, p, wait, i, released) && i >= |wait|
    ensures n == |s| && s[..n] == s && wait == Kept(s, p) && released == Tasks(Freed(s, p))
  {
    hide Kept, Freed, Tasks;
    assert n == |s| && s[..n] == s;
  }

  /** As long as nobody is released, nothing has changed. */
  lemma ScanNobody(s: seq<FlagWaiter>, n: nat, p: Flgptn, wait: seq<FlagWaiter>, i: nat)
    requires Scanning(s, n, p, wait, i, [])
    ensures Freed(s[..n], p) == [] && wait == s && i == n
  {
    hide Satisfied, Kept;
    assert Freed(s[..n], p) == [];
    NobodyFreed(s, n, p);
  }

  /** No task of s waits although its condition is satisfied. */
  ghost predicate NobodyLeft(s: seq<FlagWaiter>, flgptn: Flgptn) {
    forall w :: w in s ==> !NoBits(w.info) && !Satisfied(flgptn, w.info)
  }

  lemma KeptAreLeft(s: seq<FlagWaiter>, flgptn: Flgptn, p: Flgptn)
    requires NobodyLeft(s, flgptn)
    ensures NobodyLeft(Kept(s, p), p)
  {
    hide Satisfied;
    FreedAndKeptHold(s, p);
  }

  /** With all bits cleared nobody is satisfied. */
  lemma ClearedAllLeft(s: seq<FlagWaiter>, flgptn: Flgptn)
    requires NobodyLeft(s, flgptn)
    ensures NobodyLeft(s, 0)
  {
    hide Satisfied;
    forall w | w in s
      ensures !Satisfied(0, w.info)
    {
      NothingSatisfied(w.info);
    }
  }

  /** A task that is not satisfied may join the queue. */
  lemma JoinerLeft(s: seq<FlagWaiter>, flgptn: Flgptn, x: FlagWaiter, byPriority: bool)
    requires NobodyLeft(s, flgptn) && !NoBits(x.info) && !Satisfied(flgptn, x.info)
    ensures NobodyLeft(Join(s, x, byPriority), flgptn)
  {
    hide Satisfied, Join;
    JoinHolds(s, x, byPriority);
  }

  /** The first task whose condition is satisfied goes on, and the pattern is cleared. */
  lemma FirstGoesOn(s: seq<FlagWaiter>, flgptn: Flgptn, n: nat, p: Flgptn)
    requires NobodyLeft(s, flgptn) && n < |s| && Freed(s[..n], p) == [] && Satisfied(p, s[n].info)
    ensures FirstFreed(s, n, p, s[..n] + s[n + 1..], [s[n].task])
    ensures Kept(s[..n], p) == s[..n] && Freed(s, p) != []
    ensures NobodyLeft(s[..n] + s[n + 1..], 0)
  {
    hide Satisfied;
    NobodyFreed(s, n, p);
    FreedGrows(s, n, p);
    forall w | w in s[..n] + s[n + 1..]
      ensures !NoBits(w.info) && !Satisfied(0, w.info)
    {
      assert w in s;
      NothingSatisfied(w.info);
    }
  }

  class Flag {
    const clr: bool // TA_CLR
    const wmul: bool // TA_WMUL
    const byPriority: bool
    const iflgptn: Flgptn

    var flgptn: Flgptn
    var wait: seq<FlagWaiter>
    /** The patterns with which waits have ended. */
    var got: map<TaskId, Flgptn>

    /** No task waits although its condition is satisfied. */
    ghost predicate Inv()
      reads this
    {
      && NobodyLeft(wait, flgptn)
      && (byPriority ==> ByPriority(wait))
      && (!wmul ==> |wait| <= 1)
    }

    /** initialize_eventflag */
    constructor (clr: bool, wmul: bool, byPriority: bool, iflgptn: Flgptn)
      ensures Inv() && flgptn == iflgptn && wait == [] && got == map[]
      ensures this.clr == clr && this.wmul == wmul && this.byPriority == byPriority && this.iflgptn == iflgptn
    {
      this.clr, this.wmul, this.byPriority, this.iflgptn := clr, wmul, byPriority, iflgptn;
      flgptn, wait, got := iflgptn, [], map[];
    }

    /** check_flg_cond */
    method CheckFlgCond(c: Cond) returns (ok: bool, ptn: Flgptn)
      modifies `flgptn
      ensures ok <==> Satisfied(old(flgptn), c)
      ensures c.orMode ==> (ok <==> exists i: nat :: i < 32 && Bit(old(flgptn), i) && Bit(c.waiptn, i))
      ensures !c.orMode ==> (ok <==> forall i: nat :: i < 32 && Bit(c.waiptn, i) ==> Bit(old(flgptn), i))
      ensures ptn == old(flgptn) && flgptn == if ok && clr then 0 else old(flgptn)
    {
      hide Satisfied, Bit;
      SatisfiedIffMet(flgptn, c);
      ok, ptn := false, flgptn;
      if Satisfied(flgptn, c) {
        if clr {
          flgptn := 0;
        }
        ok := true;
      }
    }

    /** The pattern and the loop of set_flg. */
    method SetAndScan(setptn: Flgptn) returns (released: seq<TaskId>)
      requires Inv()
      modifies this
      ensures Inv()
      ensures var p := old(flgptn) | setptn;
              if !clr then
                flgptn == p && wait == Kept(old(wait), p) && released == Tasks(Freed(old(wait), p))
              else if Freed(old(wait), p) == [] then
                flgptn == p && wait == old(wait) && released == []
              else
                flgptn == 0 && exists k: nat :: FirstFreed(old(wait), k, p, wait, released)
      ensures forall t :: t in released ==> t in got && got[t] == old(flgptn) | setptn
    {
      hide Satisfied, NoBits, Kept, Freed, Tasks, FirstFreed, NobodyLeft, Scanning, ByPriority;
      flgptn := flgptn | setptn;
      ghost var s, p := wait, flgptn;
      ghost var n := 0;
      released := [];
      var i := 0;
      ScanStart(s, p);
      while i < |wait|
        invariant flgptn == p && Scanning(s, n, p, wait, i, released) && (clr ==> released == [])
        invariant forall t :: t in released ==> t in got && got[t] == p
        invariant byPriority ==> ByPriority(wait)
        decreases |s| - n
      {
        ScanNext(s, n, p, wait, i, released);
        var w := wait[i];
        var ok, ptn := CheckFlgCond(w.info);
        if ok && clr {
          ScanNobody(s, n, p, wait, i);
          FirstGoesOn(s, old(flgptn), n, p);
        }
        if ok {
          if byPriority {
            LeaveKeepsOrder(wait, i);
          }
          wait := wait[..i] + wait[i + 1..];
          got := got[w.task := ptn];
          released := released + [w.task];
          if clr {
            assert released == [s[n].task];
            return;
          }
        } else {
          i := i + 1;
        }
        n := n + 1;
      }
      ScanEnd(s, n, p, wait, i, released);
      KeptAreLeft(s, old(flgptn), p);
      if clr {
        ScanNobody(s, n, p, wait, i);
      }
    }

    /** set_flg. Without TA_CLR all tasks whose conditions are met go on, in the order of the queue; with it
        the first one does, and takes all bits. */
    method SetFlg(setptn: Flgptn) returns (released: seq<TaskId>)
      requires Inv()
      modifies this
      ensures Inv()
      ensures !clr ==>
        var p := old(flgptn) | setptn;
        && flgptn == p && (forall w :: w in wait <==> w in old(wait) && !Meets(p, w.info))
        && wait == Kept(old(wait), p) && released == Tasks(Freed(old(wait), p))
        && (forall w :: w in Freed(old(wait), p) <==> w in old(wait) && Meets(p, w.info))
      ensures clr && (forall w :: w in old(wait) ==> !Meets(old(flgptn) | setptn, w.info)) ==>
        flgptn == old(flgptn) | setptn && wait == old(wait) && released == []
      ensures clr && !(forall w :: w in old(wait) ==> !Meets(old(flgptn) | setptn, w.info)) ==>
        var p := old(flgptn) | setptn;
        && flgptn == 0
        && exists k: nat ::
             && k < |old(wait)| && Meets(p, old(wait)[k].info) && (forall i :: 0 <= i < k ==> !Meets(p, old(wait)[i].info))
             && wait == old(wait)[..k] + old(wait)[k + 1..] && released == [old(wait)[k].task]
      ensures forall t :: t in released ==> t in got && got[t] == old(flgptn) | setptn
    {
      hide Satisfied, Meets, Kept, Freed, Tasks, FirstFreed, NobodyLeft, ByPriority;
      ghost var p := flgptn | setptn;
      AllByBits(wait, p);
      released := SetAndScan(setptn);
      if clr && Freed(old(wait), p) != [] {
        ghost var k: nat :| FirstFreed(old(wait), k, p, wait, released);
        FirstByBits(old(wait), k, p, wait, released);
      }
    }

    /** clr_flg */
    method ClrFlg(clrptn: Flgptn)
      requires Inv()
      modifies `flgptn
      ensures Inv() && flgptn == old(flgptn) & clrptn
    {
      hide Satisfied, ByPriority;
      forall w | w in wait
        ensures !Satisfied(flgptn & clrptn, w.info)
      {
        ClearingSatisfiesNobody(flgptn, clrptn, w.info);
      }
      flgptn := flgptn & clrptn;
    }

    /** wai_flg, pol_flg and twai_flg, for task t of priority pri. */
    method WaiFlg(t: TaskId, pri: nat, raster: bool, c: Cond, tmo: Tmo) returns (ercd: Option<Error>, ptn: Flgptn)
      requires Inv()
      modifies `flgptn, `wait
      ensures Inv()
      ensures ercd == if NoBits(c) then Some(E_PAR)
                      else if raster then Some(E_RASTER)
                      else if !wmul && old(wait) != [] then Some(E_ILUSE)
                      else if Satisfied(old(flgptn), c) then Some(E_OK)
                      else if tmo.Poll? then Some(E_TMOUT) else None
      ensures ercd == Some(E_OK) ==> ptn == old(flgptn)
      ensures flgptn == if ercd == Some(E_OK) && clr then 0 else old(flgptn)
      ensures wait == if ercd == None then Join(old(wait), Waiter(t, pri, c), byPriority) else old(wait)
      ensures c.orMode && (ercd == Some(E_OK) || ercd == Some(E_TMOUT) || ercd == None) ==>
        (ercd == Some(E_OK) <==> exists i: nat :: i < 32 && Bit(old(flgptn), i) && Bit(c.waiptn, i))
      ensures !c.orMode && (ercd == Some(E_OK) || ercd == Some(E_TMOUT) || ercd == None) ==>
        (ercd == Some(E_OK) <==> forall i: nat :: i < 32 && Bit(c.waiptn, i) ==> Bit(old(flgptn), i))
    {
      hide Satisfied, NoBits, Join, NobodyLeft, ByPriority, Bit;
      SatisfiedIffMet(flgptn, c);
      ptn := flgptn;
      if NoBits(c) {
        ercd := Some(E_PAR);
      } else if raster {
        ercd := Some(E_RASTER);
      } else if !wmul && wait != [] {
        ercd := Some(E_ILUSE);
      } else {
        ercd, ptn := TakeOrWait(t, pri, c, tmo);
      }
    }

    /** The part of these services that looks at the pattern. */
    method TakeOrWait(t: TaskId, pri: nat, c: Cond, tmo: Tmo) returns (ercd: Option<Error>, ptn: Flgptn)
      requires Inv() && !NoBits(c) && (!wmul ==> wait == [])
      modifies `flgptn, `wait
      ensures Inv() && ptn == old(flgptn)
      ensures ercd == if Satisfied(old(flgptn), c) then Some(E_OK) else if tmo.Poll? then Some(E_TMOUT) else None
      ensures flgptn == if ercd == Some(E_OK) && clr then 0 else old(flgptn)
      ensures wait == if ercd == None then Join(old(wait), Waiter(t, pri, c), byPriority) else old(wait)
    {
      hide Satisfied, NoBits, Join, NobodyLeft, ByPriority;
      var ok;
      ok, ptn := CheckFlgCond(c);
      if ok {
        ClearedAllLeft(wait, old(flgptn));
        ercd := Some(E_OK);
      } else if tmo.Poll? {
        ercd := Some(E_TMOUT);
      } else {
        JoinerLeft(wait, flgptn, Waiter(t, pri, c), byPriority);
        if byPriority {
          JoinKeepsOrder(wait, Waiter(t, pri, c));
        }
        wait := Join(wait, Waiter(t, pri, c), byPriority);
        ercd := None;
      }
    }

    /** The i-th waiting task stops waiting. */
    method WaiterLeaves(i: nat)
      requires Inv() && i < |wait|
      modifies `wait
      ensures Inv() && wait == Leave(old(wait), i)
    {
      hide Satisfied, NoBits, ByPriority, Leave;
      LeaveHolds(wait, i);
      if byPriority {
        LeaveKeepsOrder(wait, i);
      }
      wait := Leave(wait, i);
    }

    /** The i-th waiting task gets another priority. */
    method WaiterChangesPriority(i: nat, pri: nat)
      requires Inv() && i < |wait|
      modifies `wait
      ensures Inv() && wait == Requeue(old(wait), i, pri, byPriority)
    {
      hide Satisfied, NoBits, ByPriority, Requeue;
      RequeueHolds(wait, i, pri, byPriority);
      if byPriority {
        RequeueKeepsOrder(wait, i, pri);
      }
      wait := Requeue(wait, i, pri, byPriority);
    }

    /** ini_flg */
    method IniFlg() returns (released: seq<TaskId>)
      requires Inv()
      modifies `flgptn, `wait
      ensures Inv() && flgptn == iflgptn && wait == [] && released == Tasks(old(wait))
    {
      released := Tasks(wait);
      wait, flgptn := [], iflgptn;
    }
  }

  /** With nobody freed so far, nobody of the first n is satisfied. */
  lemma {:induction false} NobodyFreed(s: seq<FlagWaiter>, n: nat, p: Flgptn)
    requires n <= |s| && Freed(s[..n], p) == []
    ensures NoneOf(s, n, p) && Kept(s[..n], p) == s[..n]
  {
    hide Satisfied;
    if n > 0 {
      var r := s[..n];
      assert r[..n - 1] == s[..n - 1] && r[n - 1] == s[n - 1];
      NobodyFreed(s, n - 1, p);
      assert s[..n] == s[..n - 1] + [s[n - 1]];
    }
  }

  lemma {:induction false} FreedGrows(s: seq<FlagWaiter>, n: nat, p: Flgptn)
    requires n < |s| && Satisfied(p, s[n].info)
    ensures Freed(s, p) != []
    decreases |s|
  {
    hide Satisfied;
    if n < |s| - 1 {
      FreedGrows(s[..|s| - 1], n, p);
    }
  }
}
