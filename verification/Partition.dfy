/** Time partitioning of hrp3_wo_tecs/kernel/domain.c: system cycles made of time windows, the modes that
    say which windows a cycle has, and switches that are put off while dispatching is disabled. */
module Partition {
  import opened Common

  type Unit = nat
  type SomId = nat

  const KERNEL: Unit := 0
  const IDLE: Unit := 1

  /** TWDINIB: the scheduling unit of a time window, and its length. */
  datatype Window = Window(unit: Unit, twdlen: nat)

  /** The tables of the configurator. The windows of mode s are those from first[s] up to first[s + 1]:
      the entry behind the last mode bounds its windows. A cycle time of zero means no time partitioning. */
  datatype Tables = Tables(windows: seq<Window>, first: seq<nat>, nxtsom: seq<Option<SomId>>, inisom: Option<SomId>, cyctim: nat)

  predicate IsMode(c: Tables, s: SomId) {
    s < |c.nxtsom| && s + 1 < |c.first|
  }

  /** Where the windows of a mode begin and end. */
  function Begin(c: Tables, s: SomId): nat
    requires IsMode(c, s)
  {
    c.first[s]
  }

  function End(c: Tables, s: SomId): nat
    requires IsMode(c, s)
  {
    c.first[s + 1]
  }

  /** No mode, or an existing one. */
  predicate ModeOk(c: Tables, s: Option<SomId>) {
    s.Some? ==> IsMode(c, s.value)
  }

  ghost predicate TablesOk(c: Tables) {
    && (forall s: SomId :: IsMode(c, s) ==> Begin(c, s) <= End(c, s) <= |c.windows|)
    && (forall s: SomId :: IsMode(c, s) ==> ModeOk(c, c.nxtsom[s]))
    && ModeOk(c, c.inisom)
  }

  /** The numbers from lo up to hi. */
  function Range(lo: nat, hi: nat): (r: seq<nat>)
    requires lo <= hi
    ensures |r| == hi - lo && forall i :: 0 <= i < hi - lo ==> r[i] == lo + i
  {
    seq(hi - lo, (i: nat) => lo + i)
  }

  /** The window that runs is one of the current mode. */
  ghost predicate WindowOk(c: Tables, cursom: Option<SomId>, runtwd: Option<nat>) {
    && ModeOk(c, cursom)
    && (runtwd.Some? ==> cursom.Some? && Begin(c, cursom.value) <= runtwd.value < End(c, cursom.value) <= |c.windows|)
  }

  /** The scheduling units are those of the running window, or of no window, or of no cycle. */
  ghost predicate UnitsOk(c: Tables, cursom: Option<SomId>, runtwd: Option<nat>, twdsched: Unit, idlesched: Unit)
    requires WindowOk(c, cursom, runtwd)
  {
    if c.cyctim == 0 then twdsched == IDLE && idlesched == IDLE
    else if cursom == None then twdsched == KERNEL && idlesched == KERNEL
    else if runtwd == None then twdsched == IDLE && idlesched == IDLE
    else twdsched == c.windows[runtwd.value].unit && idlesched == IDLE
  }

  /** The windows of the cycle have been started in the order of the table, each once: up to the running
      one, or all of them if none runs any more. */
  ghost predicate StartedOk(c: Tables, cursom: Option<SomId>, runtwd: Option<nat>, started: seq<nat>)
    requires TablesOk(c) && WindowOk(c, cursom, runtwd)
  {
    started == if cursom == None then []
               else Range(Begin(c, cursom.value), if runtwd == None then End(c, cursom.value) else runtwd.value + 1)
  }

  /** The timer runs only for the running window, until its time is up. */
  ghost predicate TimerOk(runtwd: Option<nat>, pending: bool, enable: bool, flag: bool) {
    && (enable <==> runtwd.Some? && !pending)
    && (flag ==> enable)
    && (pending ==> runtwd.Some?)
  }

  /** The event of the cycle is registered once while cycles run, unless it has gone off and the switch
      is pending; and once before the first cycle, if there is an initial mode. Its time is then the one
      under which the heap has it. */
  ghost predicate EventOk(c: Tables, cursom: Option<SomId>, pending: bool, registered: nat, booting: bool, evttim: nat, key: nat) {
    && registered == (if booting || (cursom.Some? && !pending) then 1 else 0)
    && (booting ==> cursom == None)
    && (registered == 1 ==> evttim == key)
    && (c.cyctim == 0 ==> cursom == None && !pending && !booting)
  }

  class Partition {
    const tab: Tables

    var cursom: Option<SomId>
    var nxtsom: Option<SomId>
    var runtwd: Option<nat>
    var pendingScycswitch: bool
    var pendingTwdswitch: bool
    var twdtimerEnable: bool
    var twdtimerFlag: bool
    var leftTwdtim: nat
    var twdsched: Unit
    var idlesched: Unit
    var dspflg: bool

    /** The time of the system cycle's event, and how many times it is in the heap. */
    var evttim: nat
    var registered: nat

    /** The windows that have been started in the current cycle, in that order. */
    ghost var started: seq<nat>
    /** How many cycles came before the last one had run all its windows. */
    ghost var overruns: nat
    /** The event of the initial mode is still to come. */
    ghost var booting: bool
    /** The time with which the event was last put into the heap. */
    ghost var key: nat

    // ---------- The invariant ----------

    /** What holds of the windows after a switch. */
    ghost predicate WindowsOk()
      reads `cursom, `nxtsom, `runtwd, `twdsched, `idlesched, `started, `pendingTwdswitch, `twdtimerEnable, `twdtimerFlag
    {
      && TablesOk(tab) && ModeOk(tab, nxtsom)
      && WindowOk(tab, cursom, runtwd)
      && UnitsOk(tab, cursom, runtwd, twdsched, idlesched)
      && StartedOk(tab, cursom, runtwd, started)
      && TimerOk(runtwd, pendingTwdswitch, twdtimerEnable, twdtimerFlag)
    }

    ghost predicate Inv()
      reads this
    {
      && WindowsOk()
      && EventOk(tab, cursom, pendingScycswitch, registered, booting, evttim, key)
      && (dspflg ==> !pendingScycswitch && !pendingTwdswitch)
    }

    /** The next window of the mode, if there is one. */
    function Next(w: nat): Option<nat>
      reads `cursom
      requires cursom.Some? && IsMode(tab, cursom.value)
    {
      if w < End(tab, cursom.value) then Some(w) else None
    }

    // ---------- Windows ----------

    /** initialize_domain */
    constructor (c: Tables)
      requires TablesOk(c)
      ensures Inv() && tab == c && cursom == None && dspflg && evttim == 0
      ensures booting <==> c.cyctim > 0 && c.inisom.Some?
      ensures booting ==> nxtsom == c.inisom && registered == 1
    {
      tab := c;
      cursom, runtwd, dspflg := None, None, true;
      pendingScycswitch, pendingTwdswitch, twdtimerEnable, twdtimerFlag, leftTwdtim := false, false, false, false, 0;
      evttim, key, started, overruns := 0, 0, [], 0;
      if c.cyctim == 0 {
        twdsched, idlesched := IDLE, IDLE;
        nxtsom, registered, booting := None, 0, false;
      } else {
        twdsched, idlesched := KERNEL, KERNEL;
        if c.inisom.Some? {
          nxtsom, registered, booting := c.inisom, 1, true;
        } else {
          nxtsom, registered, booting := None, 0, false;
        }
      }
    }

    /** twd_start: starts window w, or the idle window behind the last one of the mode. */
    method TwdStart(w: nat)
      requires TablesOk(tab) && tab.cyctim > 0 && cursom.Some? && IsMode(tab, cursom.value) && ModeOk(tab, nxtsom)
      requires !twdtimerFlag && !pendingTwdswitch
      requires Begin(tab, cursom.value) <= w <= End(tab, cursom.value)
      requires started == Range(Begin(tab, cursom.value), w)
      modifies `runtwd, `twdsched, `idlesched, `twdtimerEnable, `twdtimerFlag, `leftTwdtim, `started
      ensures WindowsOk()
      ensures runtwd == Next(w) && started == old(started) + if runtwd.Some? then [w] else []
      ensures runtwd.Some? ==> twdtimerFlag && w < |tab.windows| && leftTwdtim == tab.windows[w].twdlen
      ensures if w < tab.first[cursom.value + 1] then runtwd == Some(w) && w < |tab.windows| && twdsched == tab.windows[w].unit && idlesched == IDLE
              else runtwd == None && twdsched == IDLE && idlesched == IDLE && leftTwdtim == old(leftTwdtim)
    {
      if w < End(tab, cursom.value) {
        runtwd := Some(w);
        twdsched := tab.windows[w].unit;
        idlesched := IDLE;
        twdtimerEnable := true;
        leftTwdtim := tab.windows[w].twdlen;
        twdtimerFlag := true;
        started := started + [w];
      } else {
        runtwd := None;
        twdsched := IDLE;
        idlesched := IDLE;
        twdtimerEnable := false;
      }
    }

    /** What scyc_start does: a cycle of mode som begins with the first window of that mode, or the
        cycles stop. */
    ghost predicate CycleBegun(som: Option<SomId>, time: nat, events: nat)
      reads `cursom, `nxtsom, `runtwd, `started, `evttim, `registered, `pendingTwdswitch, `key
    {
      && cursom == som && !pendingTwdswitch && ModeOk(tab, som)
      && if som == None then nxtsom == None && runtwd == None && started == [] && registered == events && evttim == time
         else
           && nxtsom == tab.nxtsom[som.value]
           && runtwd == Next(Begin(tab, som.value)) && started == (if runtwd.Some? then [runtwd.value] else [])
           && registered == events + 1 && evttim == key == time + tab.cyctim
    }

    /** scyc_start. A window that still runs has overrun; left is what its timer says. */
    method ScycStart(left: nat)
      requires TablesOk(tab) && tab.cyctim > 0 && ModeOk(tab, nxtsom)
      requires TimerOk(runtwd, pendingTwdswitch, twdtimerEnable, twdtimerFlag)
      modifies `cursom, `nxtsom, `runtwd, `pendingTwdswitch, `twdsched, `idlesched, `twdtimerEnable, `twdtimerFlag, `leftTwdtim,
               `evttim, `registered, `key, `started, `overruns
      ensures WindowsOk() && CycleBegun(old(nxtsom), old(evttim), old(registered)) && (cursom == None ==> key == old(key))
      ensures overruns == old(overruns) + if old(runtwd).Some? then 1 else 0
      ensures old(runtwd).Some? && old(twdtimerFlag) && runtwd == None ==> leftTwdtim == left
      // The same, from the tables.
      ensures cursom == old(nxtsom)
      ensures cursom == None ==>
        nxtsom == None && runtwd == None && twdsched == KERNEL && idlesched == KERNEL && registered == old(registered) && evttim == old(evttim)
      ensures cursom.Some? ==>
        var s := cursom.value;
        && nxtsom == tab.nxtsom[s] && registered == old(registered) + 1 && evttim == old(evttim) + tab.cyctim && idlesched == IDLE
        && if tab.first[s] < tab.first[s + 1]
           then var w := tab.first[s];
                w < |tab.windows| && runtwd == Some(w) && twdsched == tab.windows[w].unit && twdtimerFlag && leftTwdtim == tab.windows[w].twdlen
           else runtwd == None && twdsched == IDLE
    {
      if runtwd.Some? {
        if twdtimerFlag {
          leftTwdtim := left;
          twdtimerFlag := false;
        }
        pendingTwdswitch := false;
        overruns := overruns + 1;
      }
      cursom := nxtsom;
      started := [];
      if cursom == None {
        twdsched := KERNEL;
        idlesched := KERNEL;
        runtwd := None;
        twdtimerEnable := false;
      } else {
        evttim := evttim + tab.cyctim;
        registered, key := registered + 1, evttim;
        nxtsom := tab.nxtsom[cursom.value];
        TwdStart(tab.first[cursom.value]);
      }
    }

    // ---------- Switches ----------

    /** scyc_switch: the event of the system cycle has gone off and left the heap. With dispatching
        disabled the switch is put off. */
    method ScycSwitch(left: nat)
      requires Inv() && registered == 1
      modifies this
      ensures Inv() && dspflg == old(dspflg) && !booting
      ensures dspflg ==> CycleBegun(old(nxtsom), old(evttim), 0)
      ensures dspflg && cursom == None ==> old(nxtsom) == None && twdsched == KERNEL && idlesched == KERNEL && registered == 0
      ensures dspflg && cursom.Some? ==>
        var s := cursom.value;
        && old(nxtsom) == Some(s) && nxtsom == tab.nxtsom[s] && registered == 1 && evttim == old(evttim) + tab.cyctim && idlesched == IDLE
        && if tab.first[s] < tab.first[s + 1]
           then var w := tab.first[s]; w < |tab.windows| && runtwd == Some(w) && twdsched == tab.windows[w].unit
           else runtwd == None && twdsched == IDLE
      ensures !dspflg ==>
        && registered == 0 && pendingScycswitch && pendingTwdswitch == old(pendingTwdswitch) && nxtsom == old(nxtsom) && evttim == old(evttim)
        && cursom == old(cursom) && runtwd == old(runtwd) && started == old(started)
        && twdsched == old(twdsched) && idlesched == old(idlesched)
    {
      hide WindowOk, UnitsOk, StartedOk;
      registered := registered - 1;
      booting := false;
      if dspflg {
        ScycStart(left);
      } else {
        pendingScycswitch := true;
      }
    }

    /** Two switches in a row: the modes follow the table, a cycle time apart. */
    method TwoCycles(left: nat)
      requires Inv() && registered == 1 && dspflg && nxtsom.Some?
      modifies this
      ensures Inv() && dspflg && ModeOk(tab, old(nxtsom))
      ensures var s := old(nxtsom).value;
              && cursom == tab.nxtsom[s] && registered == (if cursom.Some? then 1 else 0)
              && evttim == old(evttim) + tab.cyctim * if cursom.Some? then 2 else 1
    {
      hide WindowOk, UnitsOk, StartedOk;
      ScycSwitch(left);
      ScycSwitch(left);
    }

    /** Before an interrupt handler runs the timer of the window is stopped; it said that left is left. */
    method TwdtimerStop(left: nat)
      requires Inv()
      modifies `twdtimerFlag, `leftTwdtim
      ensures Inv() && !twdtimerFlag && leftTwdtim == if old(twdtimerFlag) then left else old(leftTwdtim)
    {
      if twdtimerFlag {
        leftTwdtim := left;
        twdtimerFlag := false;
      }
    }

    /** twdtimer_control, when a task is dispatched: only tasks of user domains use up the window. */
    method TwdtimerControl(kernelTask: bool, left: nat)
      requires Inv() && twdtimerEnable
      modifies `twdtimerFlag, `leftTwdtim
      ensures Inv() && twdtimerFlag == !kernelTask
      ensures leftTwdtim == if kernelTask && old(twdtimerFlag) then left else old(leftTwdtim)
    {
      if !kernelTask {
        if !twdtimerFlag {
          twdtimerFlag := true;
        }
      } else if twdtimerFlag {
        leftTwdtim := left;
        twdtimerFlag := false;
      }
    }

    /** The current window gives way to the next one. */
    method NextWindow()
      requires TablesOk(tab) && tab.cyctim > 0 && ModeOk(tab, nxtsom) && WindowOk(tab, cursom, runtwd) && StartedOk(tab, cursom, runtwd, started)
      requires runtwd.Some? && !twdtimerFlag && !pendingTwdswitch
      modifies `runtwd, `twdsched, `idlesched, `twdtimerEnable, `twdtimerFlag, `leftTwdtim, `started
      ensures WindowsOk() && cursom.Some?
      ensures runtwd == Next(old(runtwd).value + 1)
      ensures started == old(started) + if runtwd.Some? then [runtwd.value] else []
      ensures var w := old(runtwd).value + 1;
              idlesched == IDLE
              && if w < tab.first[cursom.value + 1] then w < |tab.windows| && runtwd == Some(w) && twdsched == tab.windows[w].unit
                 else runtwd == None && twdsched == IDLE
    {
      TwdStart(runtwd.value + 1);
    }

    /** twd_switch: the time of the running window is up, unless the switch has been cancelled. */
    method TwdSwitch()
      requires Inv() && !twdtimerFlag
      modifies this
      ensures Inv() && dspflg == old(dspflg) && cursom == old(cursom)
      ensures var due := old(twdtimerEnable) && old(leftTwdtim) == 0;
              && (due ==> old(runtwd).Some? && cursom.Some?)
              && (due && dspflg ==> runtwd == Next(old(runtwd).value + 1)
                                    && started == old(started) + if runtwd.Some? then [runtwd.value] else [])
              && (due && dspflg ==>
                    var w := old(runtwd).value + 1;
                    idlesched == IDLE
                    && if w < tab.first[cursom.value + 1] then w < |tab.windows| && runtwd == Some(w) && twdsched == tab.windows[w].unit
                       else runtwd == None && twdsched == IDLE)
              && (!due || !dspflg ==> runtwd == old(runtwd) && started == old(started) && twdsched == old(twdsched) && idlesched == old(idlesched))
              && pendingTwdswitch == (old(pendingTwdswitch) || (due && !dspflg))
    {
      hide UnitsOk, StartedOk;
      if twdtimerEnable && leftTwdtim == 0 {
        if dspflg {
          NextWindow();
        } else {
          pendingTwdswitch := true;
          twdtimerEnable := false;
        }
      }
    }

    /** dis_dsp and other ways to disable dispatching */
    method DisDsp()
      requires Inv()
      modifies `dspflg
      ensures Inv() && !dspflg
    {
      dspflg := false;
    }

    /** set_dspflg: what was put off is made up for, once. A cycle that is due makes a window switch that
        is due as well unnecessary. If the event of the initial mode is still to come, a pending cycle
        registers it a second time. */
    method SetDspflg(left: nat)
      requires Inv()
      modifies this
      ensures dspflg && !pendingScycswitch && !pendingTwdswitch && booting == old(booting)
      ensures Inv() <==> !(old(booting) && old(pendingScycswitch) && old(nxtsom).Some?)
      ensures old(booting) && old(pendingScycswitch) && old(nxtsom).Some? ==> registered == 2
      ensures if old(pendingScycswitch) then CycleBegun(old(nxtsom), old(evttim), old(registered))
              else
                && cursom == old(cursom) && nxtsom == old(nxtsom) && evttim == old(evttim)
                && if old(pendingTwdswitch) then
                     && old(runtwd).Some? && cursom.Some? && runtwd == Next(old(runtwd).value + 1)
                     && started == old(started) + if runtwd.Some? then [runtwd.value] else []
                   else runtwd == old(runtwd) && started == old(started) && twdsched == old(twdsched) && idlesched == old(idlesched)
    {
      hide UnitsOk, StartedOk;
      if pendingScycswitch {
        ScycStart(left);
        pendingScycswitch := false;
        pendingTwdswitch := false;
      } else if pendingTwdswitch {
        pendingTwdswitch := false;
        NextWindow();
      }
      dspflg := true;
    }

    /** chg_som at time now. No mode stops the cycles at the end of the current one. While the event of
        an initial mode is still to come, asking for a mode writes over the time of a registered event,
        or registers it a second time; otherwise the invariant is kept. */
    method ChgSom(som: Option<SomId>, now: nat) returns (ercd: Error)
      requires Inv() && ModeOk(tab, som)
      modifies this
      ensures dspflg == old(dspflg) && booting == old(booting)
      ensures ercd == if tab.cyctim == 0 then E_OBJ else E_OK
      ensures Inv() <==> !(old(booting) && som.Some? && (dspflg || now != old(evttim)))
      ensures old(booting) && som.Some? ==> if dspflg then registered == 2 else registered == 1 && key == old(key) && evttim == now
      ensures ercd == E_OBJ ==> nxtsom == old(nxtsom) && evttim == old(evttim)
      ensures ercd == E_OK && (old(cursom).Some? || som == None) ==>
        && nxtsom == som && cursom == old(cursom) && runtwd == old(runtwd) && started == old(started) && evttim == old(evttim)
        && pendingScycswitch == old(pendingScycswitch)
      ensures ercd == E_OK && old(cursom) == None && som.Some? ==>
        if dspflg then CycleBegun(som, now, old(registered))
        else cursom == None && nxtsom == som && pendingScycswitch && evttim == now
    {
      hide UnitsOk, StartedOk;
      if tab.cyctim == 0 {
        return E_OBJ;
      }
      nxtsom := som;
      if cursom == None && som.Some? {
        evttim := now;
        if dspflg {
          ScycStart(0);
        } else {
          pendingScycswitch := true;
        }
      }
      ercd := E_OK;
    }
  }

  /** If a task could call chg_som before the event of the initial mode has gone off, the event would be
      in the heap twice. */
  method RegisteredTwice(c: Tables, now: nat) returns (p: Partition)
    requires TablesOk(c) && c.cyctim > 0 && c.inisom.Some?
    ensures fresh(p) && p.tab == c && p.registered == 2 && !p.Inv()
  {
    hide Partition.Inv;
    p := new Partition(c);
    var ercd := p.ChgSom(c.inisom, now);
  }

  /** With dispatching disabled it would be when dispatching is enabled, but not if the event goes off
      first. */
  method RegisteredOnceOrTwice(c: Tables, first: bool) returns (p: Partition)
    requires TablesOk(c) && c.cyctim > 0 && c.inisom.Some?
    ensures fresh(p) && p.tab == c && p.dspflg && p.registered == (if first then 1 else 2) && (p.Inv() <==> first)
  {
    hide Partition.Inv;
    p := new Partition(c);
    p.DisDsp();
    var ercd := p.ChgSom(c.inisom, 0);
    if first {
      p.ScycSwitch(0);
    }
    p.SetDspflg(0);
  }
}
