/** Event times, system time and the high resolution timer of hrp3_wo_tecs/kernel/time_event.c
    and time_manage.c. All clock variables are 32-bit and wrap; the ghost variables hold the
    unbounded times behind them. */
module TimeEvent {
  import opened Common
  import opened TimeHeap

  const TWO64: int := 0x1_0000_0000_0000_0000
  const BOUNDARY_MARGIN := 200_000_000
  const TMAX_RELTIM := 4_000_000_000
  const TMAX_ADJTIM := 1_000_000
  const TMIN_ADJTIM := -1_000_000

  /** A call of a time event's callback: how long the event was registered for, and the timer and
      the total adjustment when it was registered and when it was called. */
  datatype Call = Call(reltim: int, regHrt: int, regAdjust: int, hrt: int, adjust: int)

  function Max(a: int, b: int): (m: int)
    ensures m >= a && m >= b && (m == a || m == b)
  {
    if a < b then b else a
  }

  /** What a timer with the given period shows at an unbounded count. */
  function Counter(now: int, cycle: int): int
    requires cycle > 0
  {
    now % cycle
  }

  /** A 64-bit time. */
  function Wrap64(t: int): int {
    t % TWO64
  }

  function Min(a: int, b: int): (m: int)
    ensures m <= a && m <= b && (m == a || m == b)
  {
    if a < b then a else b
  }

  // ---------- Wrapped and unbounded times ----------

  /** Times less than 2^32 past the boundary keep their distance when they are wrapped. */
  lemma AdvanceIsDistance(t: int, boundary: int)
    requires boundary <= t < boundary + TWO32
    ensures Advance(Wrap(t), Wrap(boundary)) == t - boundary
  {
    assert Wrap(t) - Wrap(boundary) == t - boundary + TWO32 * (boundary / TWO32 - t / TWO32);
    WrapShift(t - boundary, boundary / TWO32 - t / TWO32);
  }

  /** An event that is no more than 2^32 late is recognised as due exactly if it is no later than the
      margin. */
  lemma DueIfWithinMargin(t: int, cur: int)
    requires cur - TWO32 < t <= cur
    ensures Advance(Wrap(t), Wrap(cur - BOUNDARY_MARGIN)) <= Advance(Wrap(cur), Wrap(cur - BOUNDARY_MARGIN))
            <==> cur - BOUNDARY_MARGIN <= t
  {
    var boundary := cur - BOUNDARY_MARGIN;
    AdvanceIsDistance(cur, boundary);
    if boundary <= t {
      AdvanceIsDistance(t, boundary);
    } else {
      WrapShift(t, 1);
      AdvanceIsDistance(t + TWO32, boundary);
    }
  }

  lemma {:induction false} WrapShift(x: int, n: int)
    ensures (x + TWO32 * n) % TWO32 == x % TWO32
    decreases if n < 0 then -n else n
  {
    if n > 0 {
      WrapShift(x, n - 1);
    } else if n < 0 {
      WrapShift(x, n + 1);
    }
  }

  lemma WrapAdd(t: int, d: int)
    ensures (Wrap(t) + d) % TWO32 == Wrap(t + d)
  {
    WrapShift(Wrap(t) + d, t / TWO32);
  }

  lemma WrapDifference(a: int, b: int)
    requires 0 <= a - b < TWO32
    ensures (Wrap(a) - Wrap(b)) % TWO32 == a - b
  {
    WrapShift(a - b, b / TWO32 - a / TWO32);
  }

  lemma {:induction false} Wrap64Shift(x: int, n: int)
    ensures (x + TWO64 * n) % TWO64 == x % TWO64
    decreases if n < 0 then -n else n
  {
    if n > 0 {
      Wrap64Shift(x, n - 1);
    } else if n < 0 {
      Wrap64Shift(x, n + 1);
    }
  }

  /** Moving a 64-bit offset by carry, and the time it is added to from t to u. */
  lemma SystemTimeMoves(offset: int, t: int, mono: int, sys: int, carry: int, u: int, d: int)
    requires Wrap64(offset + t) == Wrap64(mono + sys)
    requires u - t + carry == d
    ensures Wrap64(offset + carry + u) == Wrap64(mono + d + sys)
    ensures Wrap64(Wrap64(offset + carry) + u) == Wrap64(mono + d + sys)
  {
    var q := (offset + carry) / TWO64;
    var r := (offset + t) / TWO64 - (mono + sys) / TWO64;
    assert offset + t == mono + sys + TWO64 * r;
    assert (offset + carry) % TWO64 + u == mono + d + sys + TWO64 * (r - q);
    Wrap64Shift(mono + d + sys, r - q);
    Wrap64Shift(mono + d + sys, r);
  }

  /** What two sums in 64 bits differ by. */
  lemma Wrap64Difference(a: int, b: int)
    ensures Wrap64(Wrap64(a) - Wrap64(b)) == Wrap64(a - b)
  {
    Wrap64Shift(a - b, b / TWO64 - a / TWO64);
  }

  /** A moving boundary keeps the heap a heap, as long as it passes no event. */
  lemma MovedBoundaryKeepsOrder(heap: Heap, b1: int, b2: int)
    requires heap.Valid() && heap.Ordered(Wrap(b1))
    requires forall b :: b in heap.blocks ==>
      b.evttim == Wrap(b.due) && b1 <= b.due < b1 + TWO32 && b2 <= b.due < b2 + TWO32
    ensures heap.Ordered(Wrap(b2))
  {
    var k1, k2 := heap.Keys(0, Wrap(b1)), heap.Keys(0, Wrap(b2));
    forall c | 2 <= c < |k2|
      ensures ParentFirst(k2, c)
    {
      assert ParentFirst(k1, c);
      var p, q: Block := heap.nodes[c / 2], heap.nodes[c];
      AdvanceIsDistance(p.due, b1);
      AdvanceIsDistance(q.due, b1);
      AdvanceIsDistance(p.due, b2);
      AdvanceIsDistance(q.due, b2);
    }
  }

  class TimeManager {
    const tstep: int
    /** The period of the timer's counter: TCYC_HRTCNT, or 2^32 where that is not defined. */
    const cycle: int
    const hrtcntBound: int
    const heap: Heap

    var currentEvttim: EvtTim
    var boundaryEvttim: EvtTim
    var monotonicEvttim: EvtTim
    var currentHrtcnt: int
    var systimOffset: int
    var inSignalTime: bool

    /** The unbounded event time, monotonic event time and timer count. */
    ghost var cur: int
    ghost var mono: int
    ghost var hrt: int
    /** The sum of all adjustments. */
    ghost var adjust: int
    /** The difference between the system time and the monotonic event time. */
    ghost var sys: int
    /** The timer count for which an interrupt was last requested, and when that was. */
    ghost var armedAt: int
    ghost var armedWhen: int
    /** All callbacks so far. */
    ghost var calls: seq<Call>
    /** How many times the timer has been read, what the last reading was, and after how many callbacks. */
    ghost var readings: nat
    ghost var lastRead: int
    ghost var callsAtRead: nat

    constructor (tstep: int, cycle: int, hrtcntBound: int, capacity: nat, hrtcnt: int)
      requires 0 <= tstep <= 4000 && hrtcntBound < cycle <= TWO32 && 0 <= hrtcntBound < 4_294_000_000
      requires 0 <= hrtcnt < cycle
      ensures Valid() && fresh(heap) && fresh(heap.nodes) && heap.blocks == {} && mono == 0 && sys == 0
      ensures calls == [] && !inSignalTime
    {
      this.tstep, this.cycle, this.hrtcntBound := tstep, cycle, hrtcntBound;
      var h := new Heap(capacity);
      heap := h;
      currentEvttim, monotonicEvttim, systimOffset, inSignalTime := 0, 0, 0, false;
      boundaryEvttim := Wrap(-BOUNDARY_MARGIN);
      currentHrtcnt := hrtcnt;
      cur, mono, hrt, adjust, sys, calls := 0, 0, hrtcnt, -hrtcnt, 0, [];
      readings, lastRead, callsAtRead := 0, hrtcnt, 0;
      armedAt, armedWhen := hrtcnt, hrtcnt;
    }

    // ---------- The invariant ----------

    ghost predicate ClockOk()
      reads `currentEvttim, `boundaryEvttim, `monotonicEvttim, `systimOffset, `cur, `mono, `sys
    {
      && 0 <= tstep <= 4000 && hrtcntBound < cycle <= TWO32 && 0 <= hrtcntBound < 4_294_000_000
      && currentEvttim == Wrap(cur)
      && boundaryEvttim == Wrap(cur - BOUNDARY_MARGIN)
      && monotonicEvttim == Wrap(mono)
      && 0 <= mono - cur < 2_000_000
      && Wrap64(systimOffset + monotonicEvttim) == Wrap64(mono + sys)
    }

    ghost predicate CounterOk()
      reads `currentHrtcnt, `hrt, `cur, `adjust
    {
      0 < cycle && currentHrtcnt == Counter(hrt, cycle) && cur == hrt + adjust
    }

    ghost predicate EventOk(b: Block)
      reads `cur, `mono, b`evttim, b`due, b`regHrt, b`regAdjust, b`reltim
    {
      && b.evttim == Wrap(b.due)
      && cur - BOUNDARY_MARGIN <= b.due <= mono + TMAX_RELTIM + tstep
      && b.due == b.regHrt + b.regAdjust + tstep + b.reltim
    }

    /** Times that can be compared at event time t. */
    ghost predicate Window(due: int, t: int) {
      t - BOUNDARY_MARGIN <= due < t - BOUNDARY_MARGIN + TWO32
    }

    /** A callback does not come before its time: with adjustments set aside, at least the
        registered time and the timer's step have passed. */
    ghost predicate NotEarly(c: Call) {
      (c.hrt - c.regHrt) + (c.adjust - c.regAdjust) >= c.reltim + tstep
    }

    /** The interrupt is requested for no later than the first event, or for the moment of the
        request if the event was due by then, and never more than the bound ahead. */
    ghost predicate ArmedOk()
      reads `armedAt, `armedWhen, `hrt, `adjust, heap, heap.blocks
    {
      && armedWhen <= hrt
      && armedAt <= armedWhen + hrtcntBound
      && (forall b :: b in heap.blocks && b.node == 1 ==> armedAt <= Max(armedWhen, b.due - adjust))
    }

    /** Right after a request: for the first event, for now if that is past, and for the bound if
        there is no event or it is further off. */
    ghost predicate ArmedExactly()
      reads `armedAt, `armedWhen, `hrt, `adjust, heap, heap.blocks
    {
      && armedWhen == hrt
      && (heap.blocks == {} ==> armedAt == hrt + hrtcntBound)
      && (forall b :: b in heap.blocks && b.node == 1 ==>
            armedAt == Max(hrt, Min(hrt + hrtcntBound, b.due - adjust)))
    }

    ghost predicate Valid()
      reads this, heap, heap.nodes, heap.blocks
    {
      ValidButTimer() && (!inSignalTime ==> ArmedOk())
    }

    ghost predicate ValidButTimer()
      reads `currentEvttim, `boundaryEvttim, `monotonicEvttim, `systimOffset, `cur, `mono, `sys,
        `currentHrtcnt, `hrt, `adjust, `calls, heap, heap.nodes, heap.blocks
    {
      && ClockOk() && CounterOk()
      && heap.Valid() && heap.Ordered(boundaryEvttim)
      && (forall b :: b in heap.blocks ==> EventOk(b))
      && (forall c :: c in calls ==> NotEarly(c))
    }

    /** No registered event would be more than BOUNDARY_MARGIN late at timer count now, after an
        adjustment by shift. This is the assumption under which event times are compared. */
    ghost predicate InTime(now: int, shift: int)
      reads `cur, `hrt, heap, heap.blocks
    {
      && hrt <= now < hrt + cycle
      && forall b :: b in heap.blocks ==> cur + (now - hrt) + shift - BOUNDARY_MARGIN <= b.due
    }

    /** The wrapped comparisons EVTTIM_LT and EVTTIM_LE agree with the unbounded times, between any
        two registered events and between an event and the current time. */
    lemma WrappedOrderIsTrueOrder(a: Block, b: Block)
      requires Valid() && a in heap.blocks && b in heap.blocks
      ensures Advance(a.evttim, boundaryEvttim) < Advance(b.evttim, boundaryEvttim) <==> a.due < b.due
      ensures Advance(a.evttim, boundaryEvttim) <= Advance(b.evttim, boundaryEvttim) <==> a.due <= b.due
      ensures Advance(a.evttim, boundaryEvttim) <= Advance(currentEvttim, boundaryEvttim) <==> a.due <= cur
    {
      AdvanceIsDistance(a.due, cur - BOUNDARY_MARGIN);
      AdvanceIsDistance(b.due, cur - BOUNDARY_MARGIN);
      AdvanceIsDistance(cur, cur - BOUNDARY_MARGIN);
    }

    /** No registered event is so far past the boundary that it could be taken for an earlier one. */
    lemma AdvanceIsBounded(b: Block)
      requires Valid() && b in heap.blocks
      ensures 0 <= Advance(b.evttim, boundaryEvttim) == b.due - (cur - BOUNDARY_MARGIN) < 4_202_004_000
    {
      AdvanceIsDistance(b.due, cur - BOUNDARY_MARGIN);
    }

    // ---------- Time ----------

    /** update_current_evttim, with the count read from the timer. */
    method UpdateCurrentEvttim(newHrtcnt: int, ghost now: int)
      requires ValidButTimer() && InTime(now, 0) && newHrtcnt == Counter(now, cycle)
      modifies this`currentEvttim, this`boundaryEvttim, this`monotonicEvttim, this`currentHrtcnt,
        this`systimOffset, this`cur, this`mono, this`hrt
      ensures ValidButTimer() && (old(ArmedOk()) ==> ArmedOk())
      ensures hrt == now && cur == old(cur) + (now - old(hrt)) && mono == Max(old(mono), cur)
    {
      hide ClockOk, CounterOk, Wrap, Heap.Ordered, Heap.Filled;
      AdvanceClock(newHrtcnt, now);
      OrderFollows(old(cur));
    }

    /** The clock variables in it. */
    method AdvanceClock(newHrtcnt: int, ghost now: int)
      requires ClockOk() && CounterOk() && hrt <= now < hrt + cycle && newHrtcnt == Counter(now, cycle)
      modifies this`currentEvttim, this`boundaryEvttim, this`monotonicEvttim, this`currentHrtcnt,
        this`systimOffset, this`cur, this`mono, this`hrt
      ensures ClockOk() && CounterOk() && old(boundaryEvttim) == Wrap(old(cur) - BOUNDARY_MARGIN)
      ensures 0 <= tstep <= 4000 && old(mono) < old(cur) + 2_000_000
      ensures hrt == now && cur == old(cur) + (now - old(hrt)) && mono == Max(old(mono), cur)
    {
      hide Wrap, Wrap64, Counter;
      var hrtcntAdvance := HrtcntAdvance(newHrtcnt, now);
      currentHrtcnt := newHrtcnt;
      AdvanceBy(hrtcntAdvance);
      hrt := now;
    }

    /** When the current time moves, with the boundary, the heap stays ordered. */
    lemma OrderFollows(before: int)
      requires ClockOk() && heap.Valid() && heap.Ordered(Wrap(before - BOUNDARY_MARGIN))
      requires forall b :: b in heap.blocks ==> EventOk(b) && Window(b.due, before)
      ensures heap.Ordered(boundaryEvttim)
    {
      MovedBoundaryKeepsOrder(heap, before - BOUNDARY_MARGIN, cur - BOUNDARY_MARGIN);
    }

    /** The time since the last reading, from the two readings alone. */
    method HrtcntAdvance(newHrtcnt: int, ghost now: int) returns (hrtcntAdvance: EvtTim)
      requires ClockOk() && CounterOk() && hrt <= now < hrt + cycle && newHrtcnt == Counter(now, cycle)
      ensures hrtcntAdvance == now - hrt
    {
      hrtcntAdvance := (newHrtcnt - currentHrtcnt) % TWO32;
      if cycle != TWO32 && newHrtcnt < currentHrtcnt {
        hrtcntAdvance := (hrtcntAdvance + cycle) % TWO32;
      }
      CounterAdvance(hrt, now);
    }

    /** What the code makes of two readings of the timer is the time between them. */
    lemma CounterAdvance(before: int, now: int)
      requires 0 < cycle <= TWO32 && before <= now < before + cycle
      ensures var a := (now % cycle - before % cycle) % TWO32;
              now - before == if cycle != TWO32 && now % cycle < before % cycle then (a + cycle) % TWO32 else a
    {
      var x, y := before % cycle, now % cycle;
      var q := now / cycle - before / cycle;
      assert now - before == cycle * q + (y - x);
      if q < 0 {
        MulBound(cycle, -q - 1);
        assert false;
      } else if q > 1 {
        MulBound(cycle, q - 2);
        assert false;
      }
      WrapSmall(y - x, cycle);
    }

    lemma MulBound(a: int, b: int)
      requires a >= 0 && b >= 0
      ensures a * b >= 0
    {
    }

    lemma WrapSmall(d: int, cycle: int)
      requires 0 < cycle <= TWO32 && -cycle < d < cycle
      ensures d >= 0 ==> d % TWO32 == d
      ensures d < 0 ==> d % TWO32 == d + TWO32 && (d + TWO32 + cycle) % TWO32 == d + cycle
    {
    }

    /** Advances the current time, and the monotonic time if that is overtaken. The upper half of
        the system time is carried over when the monotonic time wraps. */
    method AdvanceBy(advance: EvtTim)
      requires ClockOk()
      modifies this`currentEvttim, this`boundaryEvttim, this`monotonicEvttim, this`systimOffset,
        this`cur, this`mono
      ensures cur == old(cur) + advance && mono == Max(old(mono), cur)
      ensures currentEvttim == Wrap(cur) && boundaryEvttim == Wrap(cur - BOUNDARY_MARGIN)
      ensures monotonicEvttim == Wrap(mono)
      ensures Wrap64(systimOffset + monotonicEvttim) == Wrap64(mono + sys)
    {
      hide Wrap, Wrap64;
      var previousEvttim := currentEvttim;
      currentEvttim := (currentEvttim + advance) % TWO32;
      boundaryEvttim := (currentEvttim - BOUNDARY_MARGIN) % TWO32;
      WrapAdd(cur, advance);
      WrapAdd(cur + advance, -BOUNDARY_MARGIN);
      WrapDifference(mono, cur);
      cur := cur + advance;
      if (monotonicEvttim - previousEvttim) % TWO32 < advance {
        CarryOnWrap(mono, cur);
        ghost var carry := if currentEvttim < monotonicEvttim then TWO32 else 0;
        SystemTimeMoves(systimOffset, monotonicEvttim, mono, sys, carry, currentEvttim, cur - mono);
        if currentEvttim < monotonicEvttim {
          systimOffset := Wrap64(systimOffset + TWO32);
        }
        monotonicEvttim := currentEvttim;
        mono := cur;
      }
    }

    /** Between two times less than 2^32 apart, the wrapped value falls exactly when it wraps. */
    lemma CarryOnWrap(before: int, after: int)
      requires before < after < before + TWO32
      ensures Wrap(after) - Wrap(before) + (if Wrap(after) < Wrap(before) then TWO32 else 0) == after - before
    {
      assert Wrap(after) - Wrap(before) == after - before - TWO32 * (after / TWO32 - before / TWO32);
      assert 0 <= after / TWO32 - before / TWO32 <= 1;
    }

    // ---------- System time ----------

    /** set_tim */
    method SetTim(systim: int, newHrtcnt: int, ghost now: int)
      requires Valid() && InTime(now, 0) && newHrtcnt == Counter(now, cycle)
      modifies this`currentEvttim, this`boundaryEvttim, this`monotonicEvttim, this`currentHrtcnt,
        this`systimOffset, this`cur, this`mono, this`hrt, this`sys
      ensures Valid() && hrt == now
      ensures cur == old(cur) + (now - old(hrt)) && mono == Max(old(mono), cur) && sys == systim - mono
    {
      hide ClockOk, CounterOk, EventOk, ArmedOk, Counter, Heap.Ordered, Heap.Valid;
      UpdateCurrentEvttim(newHrtcnt, now);
      SetOffset(systim);
    }

    /** The difference that makes the system time the given one. */
    method SetOffset(systim: int)
      requires ClockOk()
      modifies this`systimOffset, this`sys
      ensures ClockOk() && sys == systim - mono
    {
      hide Wrap;
      systimOffset := Wrap64(systim - monotonicEvttim);
      Wrap64Shift(systim, -((systim - monotonicEvttim) / TWO64));
      sys := systim - mono;
    }

    /** get_tim. The time read is the unbounded, never decreasing monotonic time plus a difference
        that only set_tim changes, in 64 bits. */
    method GetTim(newHrtcnt: int, ghost now: int) returns (systim: int)
      requires Valid() && InTime(now, 0) && newHrtcnt == Counter(now, cycle)
      modifies this`currentEvttim, this`boundaryEvttim, this`monotonicEvttim, this`currentHrtcnt,
        this`systimOffset, this`cur, this`mono, this`hrt
      ensures Valid() && hrt == now
      ensures cur == old(cur) + (now - old(hrt)) && mono == Max(old(mono), cur)
      ensures systim == Wrap64(mono + sys)
    {
      UpdateCurrentEvttim(newHrtcnt, now);
      systim := Wrap64(systimOffset + monotonicEvttim);
    }

    /** An adjustment at event time t is refused if it goes forward and an event is a second late
        already, or if it goes back and t lags the monotonic time by a second already. */
    ghost predicate MustRefuse(adjtim: int, t: int, monotonic: int)
      reads heap, heap.blocks
    {
      if adjtim > 0 then exists b :: b in heap.blocks && b.due + TMAX_ADJTIM <= t
      else adjtim < 0 && Max(monotonic, t) - t >= -TMIN_ADJTIM
    }

    /** check_adjtim */
    method CheckAdjtim(adjtim: int) returns (refuse: bool)
      requires Valid() && TMIN_ADJTIM <= adjtim <= TMAX_ADJTIM
      ensures refuse <==> MustRefuse(adjtim, cur, mono)
      ensures adjtim > 0 ==> (refuse <==> exists b :: b in heap.blocks && b.due + TMAX_ADJTIM <= cur)
      ensures adjtim < 0 ==> (refuse <==> mono - cur >= -TMIN_ADJTIM)
      ensures adjtim == 0 ==> !refuse
    {
      if adjtim > 0 {
        if heap.last >= 1 {
          var top: Block := heap.nodes[1];
          WrapAdd(top.due, TMAX_ADJTIM);
          AdvanceIsDistance(top.due + TMAX_ADJTIM, cur - BOUNDARY_MARGIN);
          AdvanceIsDistance(cur, cur - BOUNDARY_MARGIN);
          TopIsDueFirst();
          refuse := Advance((top.evttim + TMAX_ADJTIM) % TWO32, boundaryEvttim) <= Advance(currentEvttim, boundaryEvttim);
        } else {
          refuse := false;
        }
      } else if adjtim < 0 {
        WrapDifference(mono, cur);
        refuse := (monotonicEvttim - currentEvttim) % TWO32 >= -TMIN_ADJTIM;
      } else {
        refuse := false;
      }
    }

    lemma TopIsDueFirst()
      requires Valid() && heap.last >= 1
      ensures heap.nodes[1] != null && heap.nodes[1] in heap.blocks
      ensures forall b :: b in heap.blocks ==> heap.nodes[1].due <= b.due
    {
      var top: Block := heap.nodes[1];
      heap.TopIsFirst(boundaryEvttim);
      forall b | b in heap.blocks
        ensures top.due <= b.due
      {
        WrappedOrderIsTrueOrder(top, b);
      }
    }

    /** adj_tim. The current time may go back, the monotonic time may not. */
    method AdjTim(adjtim: int, newHrtcnt: int, ghost now: int) returns (ercd: Error)
      requires Valid() && InTime(now, 0) && newHrtcnt == Counter(now, cycle)
      modifies this`currentEvttim, this`boundaryEvttim, this`monotonicEvttim, this`currentHrtcnt,
        this`systimOffset, this`cur, this`mono, this`hrt, this`adjust, this`armedAt, this`armedWhen
      ensures Valid() && (ercd == E_OK || ercd == E_PAR || ercd == E_OBJ)
      ensures ercd == E_PAR <==> !(TMIN_ADJTIM <= adjtim <= TMAX_ADJTIM)
      ensures ercd == E_PAR ==> hrt == old(hrt) && adjust == old(adjust) && mono == old(mono)
      ensures ercd != E_PAR ==> hrt == now
      ensures ercd == E_OBJ ==> adjust == old(adjust) && mono == Max(old(mono), cur)
      ensures TMIN_ADJTIM <= adjtim <= TMAX_ADJTIM ==>
        (ercd == E_OBJ <==> MustRefuse(adjtim, old(cur) + (now - old(hrt)), old(mono)))
      ensures 0 < adjtim <= TMAX_ADJTIM ==>
        (ercd == E_OBJ <==> exists b :: b in heap.blocks && b.due + TMAX_ADJTIM <= old(cur) + (now - old(hrt)))
      ensures TMIN_ADJTIM <= adjtim < 0 ==>
        (ercd == E_OBJ <==> Max(old(mono), old(cur) + (now - old(hrt))) - (old(cur) + (now - old(hrt))) >= -TMIN_ADJTIM)
      ensures ercd == E_OK ==> adjust == old(adjust) + adjtim
      ensures ercd == E_OK ==> mono == Max(Max(old(mono), cur - adjtim), cur)
      ensures ercd == E_OK && !inSignalTime ==> ArmedExactly()
    {
      hide Wrap, Wrap64, Counter, Heap.Ordered, Heap.Filled;
      if !(TMIN_ADJTIM <= adjtim <= TMAX_ADJTIM) {
        return E_PAR;
      }
      UpdateCurrentEvttim(newHrtcnt, now);
      var refuse := CheckAdjtim(adjtim);
      if refuse {
        return E_OBJ;
      }
      AcceptedInTime(adjtim);
      Adjust(adjtim);
      ercd := E_OK;
    }

    /** What adj_tim accepts makes no event more than the margin late: a second late at most before, and
        two at most after. */
    lemma AcceptedInTime(adjtim: int)
      requires Valid() && TMIN_ADJTIM <= adjtim <= TMAX_ADJTIM && !MustRefuse(adjtim, cur, mono)
      ensures InTime(hrt, adjtim)
    {
      forall b | b in heap.blocks
        ensures cur + adjtim - BOUNDARY_MARGIN <= b.due
      {
        assert EventOk(b);
      }
    }

    /** The adjustment itself, once adj_tim has found it acceptable. */
    method Adjust(adjtim: int)
      requires Valid() && InTime(hrt, adjtim) && TMIN_ADJTIM <= adjtim <= TMAX_ADJTIM
      requires adjtim < 0 ==> mono - cur < -TMIN_ADJTIM
      modifies this`currentEvttim, this`boundaryEvttim, this`monotonicEvttim, this`systimOffset,
        this`cur, this`mono, this`adjust, this`armedAt, this`armedWhen
      ensures Valid()
      ensures cur == old(cur) + adjtim && adjust == old(adjust) + adjtim && mono == Max(old(mono), cur)
      ensures !inSignalTime ==> ArmedExactly()
    {
      hide Advance, Wrap, Wrap64, Heap.Ordered, Heap.Filled, ArmedOk;
      MoveCurrent(adjtim);
      adjust := adjust + adjtim;
      OrderFollows(old(cur));
      if !inSignalTime {
        SetHrtEvent();
      }
    }

    method MoveCurrent(adjtim: int)
      requires ClockOk() && TMIN_ADJTIM <= adjtim <= TMAX_ADJTIM
      modifies this`currentEvttim, this`boundaryEvttim, this`monotonicEvttim, this`systimOffset,
        this`cur, this`mono
      ensures cur == old(cur) + adjtim && mono == Max(old(mono), cur)
      ensures currentEvttim == Wrap(cur) && boundaryEvttim == Wrap(cur - BOUNDARY_MARGIN)
      ensures monotonicEvttim == Wrap(mono)
      ensures Wrap64(systimOffset + monotonicEvttim) == Wrap64(mono + sys)
    {
      if adjtim > 0 {
        AdvanceBy(adjtim);
      } else {
        WrapAdd(cur, adjtim);
        WrapAdd(cur + adjtim, -BOUNDARY_MARGIN);
        currentEvttim := (currentEvttim + adjtim) % TWO32;
        boundaryEvttim := (currentEvttim - BOUNDARY_MARGIN) % TWO32;
        cur := cur + adjtim;
      }
    }

    // ---------- The timer interrupt ----------

    /** What set_hrt_event finds out about the first event from the wrapped times. */
    lemma FirstEvent()
      requires ValidButTimer()
      ensures heap.last < heap.nodes.Length && cur == hrt + adjust && 0 <= hrtcntBound
      ensures heap.last < 1 ==> heap.blocks == {}
      ensures heap.last >= 1 ==>
        && heap.nodes[1] != null && heap.nodes[1] in heap.blocks
        && (forall b :: b in heap.blocks && b.node == 1 ==> b == heap.nodes[1])
        && var top: Block := heap.nodes[1];
           && (Advance(top.evttim, boundaryEvttim) <= Advance(currentEvttim, boundaryEvttim) <==> top.due <= cur)
           && (top.due > cur ==> (top.evttim - currentEvttim) % TWO32 == top.due - cur)
    {
      hide Wrap, Advance, Heap.Ordered;
      if heap.last >= 1 {
        var top: Block := heap.nodes[1];
        assert EventOk(top);
        AdvanceIsDistance(top.due, cur - BOUNDARY_MARGIN);
        AdvanceIsDistance(cur, cur - BOUNDARY_MARGIN);
        if top.due > cur {
          WrapDifference(top.due, cur);
        }
      }
    }

    /** set_hrt_event, on a target with a 32-bit counter: requests the next interrupt. */
    method SetHrtEvent()
      requires ValidButTimer()
      modifies this`armedAt, this`armedWhen
      ensures ArmedOk() && ArmedExactly() && armedWhen == hrt
      ensures heap.blocks == {} ==> armedAt == hrt + hrtcntBound
      ensures forall b :: b in heap.blocks && b.node == 1 ==>
                armedAt == if b.due <= cur then hrt else if b.due - cur > hrtcntBound then hrt + hrtcntBound else hrt + (b.due - cur)
    {
      hide ValidButTimer, Advance;
      FirstEvent();
      armedWhen := hrt;
      if heap.last < 1 {
        armedAt := hrt + hrtcntBound;
      } else {
        var top: Block := heap.nodes[1];
        if Advance(top.evttim, boundaryEvttim) <= Advance(currentEvttim, boundaryEvttim) {
          armedAt := hrt;
        } else {
          var hrtcnt := (top.evttim - currentEvttim) % TWO32;
          if hrtcnt > hrtcntBound {
            armedAt := hrt + hrtcntBound;
          } else {
            armedAt := hrt + hrtcnt;
          }
        }
      }
    }

    // ---------- Registering and cancelling events ----------

    /** tmevtb_enqueue_reltim: registers an event for a time after now. */
    method EnqueueReltim(b: Block, time: int, newHrtcnt: int, ghost now: int)
      requires Valid() && InTime(now, 0) && newHrtcnt == Counter(now, cycle)
      requires b !in heap.blocks && heap.last + 1 < heap.nodes.Length && 0 <= time <= TMAX_RELTIM
      modifies this`currentEvttim, this`boundaryEvttim, this`monotonicEvttim, this`currentHrtcnt,
        this`systimOffset, this`cur, this`mono, this`hrt, this`armedAt, this`armedWhen,
        heap, heap.nodes, heap.blocks`node, b
      ensures Valid() && hrt == now && mono == Max(old(mono), cur)
      ensures heap.blocks == old(heap.blocks) + {b}
      ensures b.due == cur + tstep + time && b.regHrt == hrt && b.regAdjust == adjust && b.reltim == time
      ensures if !inSignalTime && b.node == 1 then ArmedExactly() else armedAt == old(armedAt) && armedWhen == old(armedWhen)
    {
      hide ValidButTimer, ArmedOk, ArmedExactly, Counter, EventOk;
      UpdateCurrentEvttim(newHrtcnt, now);
      SetEvttim(b, time);
      InsertAndArm(b);
    }

    /** The event time, from the current time rounded up and the relative time. */
    method SetEvttim(b: Block, time: int)
      requires ValidButTimer() && 0 <= time <= TMAX_RELTIM
      modifies b`evttim, b`due, b`regHrt, b`regAdjust, b`reltim
      ensures EventOk(b)
      ensures b.due == cur + tstep + time && b.regHrt == hrt && b.regAdjust == adjust && b.reltim == time
    {
      hide Wrap, Wrap64, Heap.Ordered, Heap.Filled;
      WrapAdd(cur, tstep);
      WrapAdd(cur + tstep, time);
      b.evttim := ((currentEvttim + tstep) % TWO32 + time) % TWO32;
      b.due, b.regHrt, b.regAdjust, b.reltim := cur + tstep + time, hrt, adjust, time;
    }

    /** call_cyclic: a periodic event that has just been called back is registered for one period
        after the time it was due, whenever that was. */
    method RegisterAgain(b: Block, cyctim: int)
      requires Valid() && inSignalTime && b !in heap.blocks && EventOk(b)
      requires b.due <= cur && 0 <= cyctim <= TMAX_RELTIM && heap.last + 1 < heap.nodes.Length
      modifies heap, heap.nodes, heap.blocks`node, b
      ensures Valid() && heap.blocks == old(heap.blocks) + {b}
      ensures b.due == old(b.due) + cyctim
    {
      hide Advance, Wrap, Wrap64, Counter, Heap.Ordered, Heap.Filled;
      WrapAdd(b.due, cyctim);
      b.evttim := (b.evttim + cyctim) % TWO32;
      b.due, b.reltim := b.due + cyctim, b.reltim + cyctim;
      heap.Insert(b, boundaryEvttim);
    }

    /** Inserts an event whose time is set. Only a new first event needs the timer. */
    method InsertAndArm(b: Block)
      requires Valid() && b !in heap.blocks && heap.last + 1 < heap.nodes.Length && EventOk(b)
      modifies this`armedAt, this`armedWhen, heap, heap.nodes, heap.blocks`node, b`node
      ensures Valid() && heap.blocks == old(heap.blocks) + {b}
      ensures if !inSignalTime && b.node == 1 then ArmedExactly() else armedAt == old(armedAt) && armedWhen == old(armedWhen)
    {
      hide Advance, Wrap, Wrap64, Counter, Heap.Ordered, EventOk, ClockOk, CounterOk;
      heap.Insert(b, boundaryEvttim);
      if !inSignalTime && b.node == 1 {
        SetHrtEvent();
      }
    }

    /** tmevtb_dequeue: cancels an event. Only cancelling the first one needs the timer. */
    method Dequeue(b: Block, newHrtcnt: int, ghost now: int)
      requires Valid() && b in heap.blocks
      requires !inSignalTime && b.node == 1 ==> InTime(now, 0) && newHrtcnt == Counter(now, cycle)
      modifies this`currentEvttim, this`boundaryEvttim, this`monotonicEvttim, this`currentHrtcnt,
        this`systimOffset, this`cur, this`mono, this`hrt, this`armedAt, this`armedWhen,
        heap, heap.nodes, heap.blocks`node
      ensures Valid() && heap.blocks == old(heap.blocks) - {b} && heap.last == old(heap.last) - 1
      ensures hrt == if !inSignalTime && old(b.node) == 1 then now else old(hrt)
      ensures if !inSignalTime && old(b.node) == 1 then ArmedExactly() else armedAt == old(armedAt) && armedWhen == old(armedWhen)
      ensures mono == Max(old(mono), cur) && old(hrt) <= hrt
    {
      hide ValidButTimer, ArmedOk, Counter;
      MonotonicLeads();
      var p := b.node;
      Remove(b);
      if !inSignalTime && p == 1 {
        UpdateCurrentEvttim(newHrtcnt, now);
        SetHrtEvent();
      }
    }

    lemma MonotonicLeads()
      requires ValidButTimer()
      ensures mono == Max(mono, cur)
    {
    }

    /** Takes an event from the heap. If it was not the first one, the timer stays right. */
    method Remove(b: Block)
      requires Valid() && b in heap.blocks
      modifies heap, heap.nodes, heap.blocks`node
      ensures ValidButTimer() && heap.blocks == old(heap.blocks) - {b} && heap.last == old(heap.last) - 1
      ensures old(b.node) != 1 ==> Valid()
    {
      hide Heap.Ordered, EventOk, ClockOk, CounterOk;
      heap.Delete(b, boundaryEvttim);
    }

    // ---------- The timer interrupt handler ----------

    /** The environment: the timer's next reading. Nothing is known of it but that the counter has
        not gone once around, and that no event would be too late to be compared. */
    method TargetHrtGetCurrent() returns (newHrtcnt: int, ghost now: int)
      requires Valid()
      modifies this`readings, this`lastRead, this`callsAtRead
      ensures readings == old(readings) + 1 && lastRead == now && callsAtRead == |calls| && Valid()
      ensures InTime(now, 0) && newHrtcnt == Counter(now, cycle) && hrt <= now
    {
      newHrtcnt, now := currentHrtcnt, hrt;
      readings, lastRead, callsAtRead := readings + 1, now, |calls|;
    }

    /** The environment: one call of another service. It may cancel an event, register one, or adjust
        the time. */
    method OneRequest()
      requires Valid()
      modifies this`currentEvttim, this`boundaryEvttim, this`monotonicEvttim, this`currentHrtcnt,
        this`systimOffset, this`cur, this`mono, this`hrt, this`adjust, this`armedAt, this`armedWhen,
        this`readings, this`lastRead, this`callsAtRead, heap, heap.nodes, heap.blocks
      ensures Valid() && fresh(heap.blocks - old(heap.blocks))
      ensures old(hrt) <= hrt && old(mono) <= mono && old(readings) <= readings
    {
      hide ValidButTimer, ArmedOk, Counter, MustRefuse;
      var newHrtcnt: int;
      ghost var now: int;
      newHrtcnt, now := TargetHrtGetCurrent();
      var slot: nat, time: int := *, *;
      SlotsHold();
      if
      case 1 <= slot <= heap.last =>
        Dequeue(heap.nodes[slot], newHrtcnt, now);
      case 0 <= time <= TMAX_RELTIM && heap.last + 1 < heap.nodes.Length =>
        var c := new Block();
        EnqueueReltim(c, time, newHrtcnt, now);
      case true =>
        var ercd := AdjTim(time, newHrtcnt, now);
      case true =>
    }

    lemma SlotsHold()
      requires ValidButTimer()
      ensures heap.last < heap.nodes.Length
      ensures forall i :: 1 <= i <= heap.last ==> heap.nodes[i] != null && heap.nodes[i] in heap.blocks
    {
    }

    /** The environment: any number of them. */
    method Requests()
      requires Valid()
      modifies this`currentEvttim, this`boundaryEvttim, this`monotonicEvttim, this`currentHrtcnt,
        this`systimOffset, this`cur, this`mono, this`hrt, this`adjust, this`armedAt, this`armedWhen,
        this`readings, this`lastRead, this`callsAtRead, heap, heap.nodes, heap.blocks
      ensures Valid() && fresh(heap.blocks - old(heap.blocks))
      ensures old(hrt) <= hrt && old(mono) <= mono && old(readings) <= readings
    {
      hide ValidButTimer, ArmedOk;
      var steps: nat := *;
      while steps > 0
        invariant Valid() && fresh(heap.blocks - old(heap.blocks))
        invariant old(hrt) <= hrt && old(mono) <= mono && old(readings) <= readings
      {
        steps := steps - 1;
        OneRequest();
      }
    }

    lemma Logged(b: Block)
      requires ValidButTimer() && EventOk(b) && b.due <= cur
      ensures NotEarly(Call(b.reltim, b.regHrt, b.regAdjust, hrt, adjust))
    {
    }

    /** The environment: a callback, and whatever other calls come in while it runs. It may register
        the event called back for its next period first. Its caller relies on the contract alone. */
    method Callback(b: Block)
      requires Valid() && inSignalTime && b !in heap.blocks && EventOk(b) && b.due <= cur
      modifies this`currentEvttim, this`boundaryEvttim, this`monotonicEvttim, this`currentHrtcnt,
        this`systimOffset, this`cur, this`mono, this`hrt, this`adjust, this`armedAt, this`armedWhen,
        this`readings, this`lastRead, this`callsAtRead, this`calls, heap, heap.nodes, heap.blocks, b
      ensures Valid() && fresh(heap.blocks - old(heap.blocks) - {b})
      ensures calls == old(calls) + [Call(old(b.reltim), old(b.regHrt), old(b.regAdjust), old(hrt), old(adjust))]
      ensures old(hrt) <= hrt && old(mono) <= mono && old(readings) <= readings
    {
      hide ArmedOk, EventOk, ClockOk, CounterOk, Heap.Ordered, Heap.Valid;
      SlotsHold();
      Logged(b);
      calls := calls + [Call(b.reltim, b.regHrt, b.regAdjust, hrt, adjust)];
      if * {
        var cyctim := *;
        if 0 <= cyctim <= TMAX_RELTIM && heap.last + 1 < heap.nodes.Length {
          RegisterAgain(b, cyctim);
        }
      }
      Requests();
    }

    /** signal_time: calls back every event that is due, first come first, until none is, and
        requests the next interrupt. At the end the clock is as read after the last callback. At most limit
        callbacks are followed; done says whether the handler came to its end within them. */
    method SignalTime(limit: nat) returns (done: bool)
      requires Valid() && !inSignalTime
      modifies this, heap, heap.nodes, heap.blocks
      ensures Valid() && inSignalTime == !done
      ensures done ==> forall b :: b in heap.blocks ==> cur < b.due
      ensures done ==> ArmedExactly()
      ensures done ==> readings > old(readings) && hrt == lastRead && |calls| == callsAtRead
      ensures old(hrt) <= hrt && old(mono) <= mono && sys == old(sys)
      ensures old(calls) <= calls && forall i :: |old(calls)| <= i < |calls| ==> old(hrt) <= calls[i].hrt
      ensures fresh(heap.blocks - old(heap.blocks))
    {
      hide ValidButTimer, ArmedOk, ArmedExactly, Counter;
      inSignalTime := true;
      var left := limit;
      var callflag := true;
      while callflag
        invariant Valid() && inSignalTime && fresh(heap.blocks - old(heap.blocks))
        invariant old(hrt) <= hrt && old(mono) <= mono && sys == old(sys)
        invariant !callflag ==> readings > old(readings) && hrt == lastRead && |calls| == callsAtRead
        invariant readings >= old(readings)
        invariant old(calls) <= calls && forall i :: |old(calls)| <= i < |calls| ==> old(hrt) <= calls[i].hrt
        invariant !callflag ==> forall b :: b in heap.blocks ==> cur < b.due
        decreases left, callflag
      {
        callflag := false;
        var left0 := left;
        var newHrtcnt: int;
        ghost var now: int;
        newHrtcnt, now := TargetHrtGetCurrent();
        UpdateCurrentEvttim(newHrtcnt, now);
        var due;
        left, due := CallDue(left);
        if due {
          return false;
        }
        if left < left0 {
          callflag := true;
        }
      }
      LeaveHandler();
      done := true;
    }

    /** What the handler's callbacks have in common: with adjustments set aside, none has come before the
        timer's step and its registered time were over. */
    lemma NoneEarly(i: nat)
      requires Valid() && i < |calls|
      ensures (calls[i].hrt - calls[i].regHrt) + (calls[i].adjust - calls[i].regAdjust) >= calls[i].reltim + tstep
    {
      assert NotEarly(calls[i]);
    }

    /** The end of signal_time. */
    method LeaveHandler()
      requires Valid() && inSignalTime
      modifies this`armedAt, this`armedWhen, this`inSignalTime
      ensures Valid() && !inSignalTime && ArmedExactly()
    {
      hide ValidButTimer, ArmedOk, ArmedExactly;
      SetHrtEvent();
      inSignalTime := false;
    }

    /** The inner loop of signal_time: calls back due events, until none is due or limit is used up. */
    method CallDue(limit: nat) returns (left: nat, due: bool)
      requires Valid() && inSignalTime
      modifies this`currentEvttim, this`boundaryEvttim, this`monotonicEvttim, this`currentHrtcnt,
        this`systimOffset, this`cur, this`mono, this`hrt, this`adjust, this`armedAt, this`armedWhen,
        this`readings, this`lastRead, this`callsAtRead, this`calls, heap, heap.nodes, heap.blocks
      ensures Valid() && fresh(heap.blocks - old(heap.blocks)) && left <= limit
      ensures due <==> exists b :: b in heap.blocks && b.due <= cur
      ensures due ==> left == 0
      ensures old(calls) <= calls && |calls| == |old(calls)| + limit - left
      ensures forall i :: |old(calls)| <= i < |calls| ==> old(hrt) <= calls[i].hrt
      ensures old(hrt) <= hrt && old(mono) <= mono && old(readings) <= readings
      ensures left == limit ==> hrt == old(hrt) && lastRead == old(lastRead) && callsAtRead == old(callsAtRead)
    {
      hide Advance, Wrap, Wrap64, Counter, Heap.Ordered, Heap.Filled;
      left := limit;
      due := TopIsDue();
      while due && left > 0
        invariant Valid() && fresh(heap.blocks - old(heap.blocks)) && left <= limit
        invariant due <==> exists b :: b in heap.blocks && b.due <= cur
        invariant old(calls) <= calls && |calls| == |old(calls)| + limit - left
        invariant forall i :: |old(calls)| <= i < |calls| ==> old(hrt) <= calls[i].hrt
        invariant old(hrt) <= hrt && old(mono) <= mono && old(readings) <= readings
        invariant left == limit ==> hrt == old(hrt) && lastRead == old(lastRead) && callsAtRead == old(callsAtRead)
      {
        left := left - 1;
        ghost var top := CallTop();
        due := TopIsDue();
      }
    }

    /** Whether the first event is due: the guard of the handler's loops. */
    method TopIsDue() returns (due: bool)
      requires Valid()
      ensures due <==> exists b :: b in heap.blocks && b.due <= cur
    {
      due := false;
      if heap.last >= 1 {
        TopIsDueFirst();
        WrappedOrderIsTrueOrder(heap.nodes[1], heap.nodes[1]);
        due := Advance(heap.nodes[1].evttim, boundaryEvttim) <= Advance(currentEvttim, boundaryEvttim);
      }
    }

    /** Takes out the first event, which is due, and calls it back. */
    method CallTop() returns (ghost top: Block)
      requires Valid() && inSignalTime && exists b :: b in heap.blocks && b.due <= cur
      modifies this`currentEvttim, this`boundaryEvttim, this`monotonicEvttim, this`currentHrtcnt,
        this`systimOffset, this`cur, this`mono, this`hrt, this`adjust, this`armedAt, this`armedWhen,
        this`readings, this`lastRead, this`callsAtRead, this`calls, heap, heap.nodes, heap.blocks
      ensures Valid() && fresh(heap.blocks - old(heap.blocks))
      ensures old(hrt) <= hrt && old(mono) <= mono && old(readings) <= readings
      ensures top in old(heap.blocks) && old(top.due) <= old(cur)
      ensures forall b :: b in old(heap.blocks) ==> old(top.due) <= old(b.due)
      ensures calls == old(calls) + [Call(old(top.reltim), old(top.regHrt), old(top.regAdjust), old(hrt), old(adjust))]
    {
      hide Advance, Wrap, Wrap64, Counter, Heap.Ordered, Heap.Filled;
      var b := TakeTop();
      top := b;
      Callback(b);
    }

    method TakeTop() returns (top: Block)
      requires Valid() && inSignalTime && exists b :: b in heap.blocks && b.due <= cur
      modifies heap, heap.nodes, heap.blocks`node
      ensures Valid() && top in old(heap.blocks) && heap.blocks == old(heap.blocks) - {top}
      ensures EventOk(top) && top.due <= cur
      ensures forall b :: b in old(heap.blocks) ==> top.due <= b.due
    {
      hide Advance, Wrap, Wrap64, Counter, Heap.Ordered;
      TopIsDueFirst();
      top := heap.DeleteTop(boundaryEvttim);
    }

    // ---------- Two readings ----------

    /** The environment: any calls but set_tim, and any timer interrupts. If the handler of one is not
        over within its limit, the calls after it are made by its callbacks. */
    method AnyButSetTim()
      requires Valid()
      modifies this, heap, heap.nodes, heap.blocks
      ensures Valid() && fresh(heap.blocks - old(heap.blocks))
      ensures old(hrt) <= hrt && old(mono) <= mono && sys == old(sys)
    {
      hide ValidButTimer, ArmedOk, ArmedExactly;
      var steps: nat := *;
      while steps > 0
        invariant Valid() && fresh(heap.blocks - old(heap.blocks))
        invariant old(hrt) <= hrt && old(mono) <= mono && sys == old(sys)
      {
        steps := steps - 1;
        var limit: nat := *;
        if inSignalTime {
          OneRequest();
        } else if * {
          Requests();
        } else {
          var done := SignalTime(limit);
        }
      }
    }

    /** The system time never goes back. Two readings with no set_tim between them, whatever else happens,
        differ in 64 bits by how far the unbounded monotonic time has come. */
    method TwoReadings() returns (first: int, second: int, ghost between: int)
      requires Valid()
      modifies this, heap, heap.nodes, heap.blocks
      ensures Valid() && sys == old(sys)
      ensures old(mono) <= mono - between && 0 <= between
      ensures first == Wrap64(mono - between + sys) && second == Wrap64(mono + sys)
      ensures Wrap64(second - first) == Wrap64(between)
      ensures between < TWO64 ==> Wrap64(second - first) == between
    {
      hide ValidButTimer, ArmedOk, Counter;
      var newHrtcnt: int;
      ghost var now: int;
      newHrtcnt, now := TargetHrtGetCurrent();
      first := GetTim(newHrtcnt, now);
      ghost var mono1 := mono;
      AnyButSetTim();
      newHrtcnt, now := TargetHrtGetCurrent();
      second := GetTim(newHrtcnt, now);
      between := mono - mono1;
      Wrap64Difference(mono + sys, mono1 + sys);
    }
  }
}
