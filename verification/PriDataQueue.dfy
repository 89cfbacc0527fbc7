/** Priority data queues of hrp3_wo_tecs/kernel/pridataq.c: a list of data in the order of their
    priorities, kept in blocks that are taken from a free list or from those never used. */
module PriDataQueue {
  import opened Common
  import WaitQueue

  /** Data with its priority; low numbers come first. */
  datatype Item = Item(data: int, datapri: int)

  /** PDQMB: a block of the data area. Blocks are linked by their indices. */
  datatype Pdqmb = Pdqmb(next: Option<nat>, item: Item)

  /** The i-th pointer of a list: where it starts, or the link of the block before. */
  function Pointer(l: seq<nat>, i: nat): Option<nat> {
    if i < |l| then Some(l[i]) else None
  }

  ghost predicate Linked(mem: seq<Pdqmb>, l: seq<nat>, i: nat)
    requires i < |l|
  {
    l[i] < |mem| && mem[l[i]].next == Pointer(l, i + 1)
  }

  /** The blocks of l are linked one to the next, from the first one on. */
  ghost predicate IsList(mem: seq<Pdqmb>, first: Option<nat>, l: seq<nat>) {
    first == Pointer(l, 0) && forall i: nat :: i < |l| ==> Linked(mem, l, i)
  }

  function Items(mem: seq<Pdqmb>, l: seq<nat>): (r: seq<Item>)
    ensures |r| == |l| && forall i :: 0 <= i < |l| && l[i] < |mem| ==> r[i] == mem[l[i]].item
  {
    seq(|l|, (i: nat) requires i < |l| => if l[i] < |mem| then mem[l[i]].item else Item(0, 0))
  }

  function Priorities(s: seq<Item>): (p: seq<int>)
    ensures |p| == |s| && forall i :: 0 <= i < |s| ==> p[i] == s[i].datapri
  {
    seq(|s|, (i: nat) requires i < |s| => s[i].datapri)
  }

  ghost predicate Ordered(s: seq<Item>) {
    Ascending(Priorities(s))
  }

  /** How much data stays ahead of new data of priority p. */
  function Spot(s: seq<Item>, p: int): (k: nat)
    ensures k <= |s| && (forall i :: 0 <= i < k ==> s[i].datapri <= p) && (k < |s| ==> p < s[k].datapri)
  {
    PriorityPlace(Priorities(s), p)
  }

  lemma SpotIs(s: seq<Item>, p: int, k: nat)
    requires k <= |s| && (forall i :: 0 <= i < k ==> s[i].datapri <= p) && (k < |s| ==> p < s[k].datapri)
    ensures Spot(s, p) == k
  {
    PriorityPlaceIs(Priorities(s), p, k);
  }

  /** Sequence s with x behind all that comes no later. */
  function Insert(s: seq<Item>, x: Item): (r: seq<Item>)
    ensures |r| == |s| + 1
  {
    InsertAt(s, Spot(s, x.datapri), x)
  }

  /** The order is kept, and equal data stays in the order of its arrival. */
  lemma InsertKeepsOrder(s: seq<Item>, x: Item)
    requires Ordered(s)
    ensures Ordered(Insert(s, x))
    ensures forall i :: 0 <= i < |s| && s[i].datapri == x.datapri ==> i < Spot(s, x.datapri)
  {
    hide InsertAt, Priorities;
    var p, k := Priorities(s), Spot(s, x.datapri);
    PriorityPlaceKeepsOrder(p, x.datapri);
    var r := Insert(s, x);
    forall i: nat | i < |r|
      ensures Priorities(r)[i] == InsertAt(p, k, x.datapri)[i]
    {
      InsertIndex(s, k, x, i);
      InsertIndex(p, k, x.datapri, i);
    }
    assert Priorities(r) == InsertAt(p, k, x.datapri);
  }

  /** The new data is behind all data that comes no later, and before the first that does. */
  lemma InsertIs(s: seq<Item>, x: Item)
    ensures exists k: nat ::
      && k <= |s| && (forall i :: 0 <= i < k ==> s[i].datapri <= x.datapri) && (k < |s| ==> x.datapri < s[k].datapri)
      && Insert(s, x) == s[..k] + [x] + s[k..]
  {
    var k := Spot(s, x.datapri);
    assert Insert(s, x) == s[..k] + [x] + s[k..];
  }

  /** Nothing is lost and nothing is added but x. */
  lemma InsertContents(s: seq<Item>, x: Item)
    ensures multiset(Insert(s, x)) == multiset(s) + multiset{x}
  {
    var k := Spot(s, x.datapri);
    assert s == s[..k] + s[k..];
  }

  /** Blocks that are not in a list do not matter to it. */
  lemma ListIgnores(mem: seq<Pdqmb>, mem': seq<Pdqmb>, first: Option<nat>, l: seq<nat>)
    requires IsList(mem, first, l) && |mem'| == |mem|
    requires forall b: nat :: b in l && b < |mem| ==> mem'[b] == mem[b]
    ensures IsList(mem', first, l) && Items(mem', l) == Items(mem, l)
  {
    forall i: nat | i < |l|
      ensures Linked(mem', l, i) && l[i] < |mem| && mem'[l[i]] == mem[l[i]]
    {
      assert Linked(mem, l, i) && l[i] in l;
    }
  }

  /** A block is linked in before the k-th of a list. */
  lemma ListInsert(mem: seq<Pdqmb>, mem': seq<Pdqmb>, first: Option<nat>, l: seq<nat>, k: nat, b: nat, x: Item)
    requires IsList(mem, first, l) && Distinct(l) && k <= |l| && b < |mem| && b !in l && |mem'| == |mem|
    requires mem'[b] == Pdqmb(Pointer(l, k), x)
    requires k > 0 ==> l[k - 1] < |mem| && mem'[l[k - 1]] == mem[l[k - 1]].(next := Some(b))
    requires forall c: nat :: c < |mem| && c != b && (k > 0 ==> c != l[k - 1]) ==> mem'[c] == mem[c]
    ensures IsList(mem', if k == 0 then Some(b) else first, InsertAt(l, k, b))
    ensures Items(mem', InsertAt(l, k, b)) == InsertAt(Items(mem, l), k, x)
  {
    hide Items, Pointer;
    var r := InsertAt(l, k, b);
    var s := Items(mem, l);
    forall i: nat | i < |r|
      ensures Linked(mem', r, i) && mem'[r[i]].item == InsertAt(s, k, x)[i]
    {
      InsertLink(mem, mem', first, l, k, b, x, i);
    }
    assert Pointer(r, 0) == if k == 0 then Some(b) else first by {
      InsertPointer(l, k, b, 0);
    }
    assert Items(mem', r) == InsertAt(s, k, x);
  }

  lemma InsertPointer(l: seq<nat>, k: nat, b: nat, i: nat)
    requires k <= |l|
    ensures Pointer(InsertAt(l, k, b), i) == if i < k then Pointer(l, i) else if i == k then Some(b) else Pointer(l, i - 1)
  {
    if i <= |l| {
      InsertIndex(l, k, b, i);
    }
  }

  /** The blocks of the old list after the insertion. */
  lemma OldBlocks(mem: seq<Pdqmb>, mem': seq<Pdqmb>, first: Option<nat>, l: seq<nat>, k: nat, b: nat, j: nat)
    requires IsList(mem, first, l) && Distinct(l) && k <= |l| && b < |mem| && b !in l && |mem'| == |mem|
    requires k > 0 ==> l[k - 1] < |mem| && mem'[l[k - 1]] == mem[l[k - 1]].(next := Some(b))
    requires forall c: nat :: c < |mem| && c != b && (k > 0 ==> c != l[k - 1]) ==> mem'[c] == mem[c]
    requires j < |l|
    ensures l[j] < |mem| && mem'[l[j]].item == mem[l[j]].item
    ensures mem'[l[j]].next == if j + 1 == k then Some(b) else Pointer(l, j + 1)
  {
    hide Pointer;
    assert Linked(mem, l, j) && l[j] in l;
  }

  lemma InsertLink(mem: seq<Pdqmb>, mem': seq<Pdqmb>, first: Option<nat>, l: seq<nat>, k: nat, b: nat, x: Item, i: nat)
    requires IsList(mem, first, l) && Distinct(l) && k <= |l| && b < |mem| && b !in l && |mem'| == |mem|
    requires mem'[b] == Pdqmb(Pointer(l, k), x)
    requires k > 0 ==> l[k - 1] < |mem| && mem'[l[k - 1]] == mem[l[k - 1]].(next := Some(b))
    requires forall c: nat :: c < |mem| && c != b && (k > 0 ==> c != l[k - 1]) ==> mem'[c] == mem[c]
    requires i <= |l|
    ensures Linked(mem', InsertAt(l, k, b), i)
    ensures var r := InsertAt(l, k, b); var s := Items(mem, l); mem'[r[i]].item == InsertAt(s, k, x)[i]
  {
    hide Pointer, Distinct, IsList, InsertAt, Items;
    var s := Items(mem, l);
    InsertIndex(l, k, b, i);
    InsertIndex(s, k, x, i);
    InsertPointer(l, k, b, i + 1);
    if i != k {
      OldBlocks(mem, mem', first, l, k, b, if i < k then i else i - 1);
    }
  }

  /** The first block of a list moves to another list. */
  lemma ListMove(mem: seq<Pdqmb>, first: Option<nat>, l: seq<nat>, other: Option<nat>, m: seq<nat>)
    requires IsList(mem, first, l) && IsList(mem, other, m) && Distinct(l) && l != [] && l[0] !in m
    requires l[0] < |mem|
    ensures var mem' := mem[l[0] := mem[l[0]].(next := other)];
            && IsList(mem', mem[l[0]].next, l[1..]) && IsList(mem', first, [l[0]] + m)
            && Items(mem', l[1..]) == Items(mem, l)[1..]
  {
    var mem' := mem[l[0] := mem[l[0]].(next := other)];
    assert Linked(mem, l, 0);
    forall i: nat | i < |l[1..]|
      ensures Linked(mem', l[1..], i) && mem'[l[1..][i]] == mem[l[i + 1]]
    {
      assert Linked(mem, l, i + 1) && l[1..][i] == l[i + 1];
    }
    var r := [l[0]] + m;
    forall i: nat | i < |r|
      ensures Linked(mem', r, i)
    {
      if i > 0 {
        assert Linked(mem, m, i - 1) && r[i] == m[i - 1] && m[i - 1] in m;
      }
    }
  }

  lemma ListAt(mem: seq<Pdqmb>, first: Option<nat>, l: seq<nat>, i: int)
    requires IsList(mem, first, l) && i < |l|
    ensures i >= 0 ==> l[i] < |mem| && l[i] in l && mem[l[i]].next == Pointer(l, i + 1)
  {
    if i >= 0 {
      assert Linked(mem, l, i);
    }
  }

  lemma ListStart(mem: seq<Pdqmb>, first: Option<nat>, l: seq<nat>)
    requires IsList(mem, first, l)
    ensures first == Pointer(l, 0)
  {
  }

  lemma ListHead(mem: seq<Pdqmb>, first: Option<nat>, l: seq<nat>)
    requires IsList(mem, first, l) && l != []
    ensures first == Some(l[0]) && l[0] < |mem| && l[0] in l
  {
    assert Linked(mem, l, 0);
  }

  lemma ListTail(mem: seq<Pdqmb>, first: Option<nat>, l: seq<nat>)
    requires IsList(mem, first, l) && l != [] && l[0] < |mem|
    ensures IsList(mem, mem[l[0]].next, l[1..])
  {
    assert Linked(mem, l, 0);
    forall i: nat | i < |l[1..]|
      ensures Linked(mem, l[1..], i)
    {
      assert Linked(mem, l, i + 1);
    }
  }

  lemma OrderedTail(s: seq<Item>)
    requires Ordered(s) && s != []
    ensures Ordered(s[1..])
  {
  }

  lemma DistinctMove(l: seq<nat>, m: seq<nat>)
    requires Distinct(l) && Distinct(m) && l != [] && l[0] !in m
    ensures Distinct(l[1..]) && Distinct([l[0]] + m)
    ensures forall c: nat :: c in l <==> c == l[0] || c in l[1..]
    ensures l[0] !in l[1..]
  {
    assert l == [l[0]] + l[1..];
  }

  class Queue {
    const pdqcnt: nat
    const maxdpri: int
    const byPriority: bool
    const pdqmb: array<Pdqmb>

    var count: nat
    var head: Option<nat>
    var unused: nat
    var freelist: Option<nat>

    var swait: seq<WaitQueue.Waiter<Item>>
    var rwait: seq<TaskId>
    var got: map<TaskId, Item>

    /** The blocks of the data list and of the free list. */
    ghost var dlist: seq<nat>
    ghost var flist: seq<nat>

    ghost function Contents(): seq<Item>
      reads `dlist, pdqmb
    {
      Items(pdqmb[..], dlist)
    }

    /** The blocks below unused are divided between the two lists, each in one of them once. */
    ghost predicate BlocksOk()
      reads `count, `head, `unused, `freelist, `dlist, `flist, pdqmb
    {
      && pdqmb.Length == pdqcnt
      && IsList(pdqmb[..], head, dlist) && IsList(pdqmb[..], freelist, flist)
      && Distinct(dlist) && Distinct(flist)
      && (forall b: nat :: b in dlist ==> b !in flist)
      && (forall b: nat :: b in dlist || b in flist <==> b < unused)
      && |dlist| + |flist| == unused <= pdqcnt && count == |dlist|
    }

    ghost predicate DataOk()
      reads `count, `head, `unused, `freelist, `dlist, `flist, pdqmb
    {
      BlocksOk() && Ordered(Contents())
    }

    ghost predicate Inv()
      reads this, pdqmb
    {
      && DataOk()
      && (swait != [] ==> count == pdqcnt)
      && (rwait != [] ==> count == 0 && swait == [])
      && (byPriority ==> WaitQueue.ByPriority(swait))
    }

    /** initialize_pridataq */
    constructor (pdqcnt: nat, maxdpri: int, byPriority: bool)
      ensures Inv() && fresh(pdqmb) && this.pdqcnt == pdqcnt && this.maxdpri == maxdpri && this.byPriority == byPriority
      ensures Contents() == [] && swait == [] && rwait == []
    {
      this.pdqcnt, this.maxdpri, this.byPriority := pdqcnt, maxdpri, byPriority;
      pdqmb := new Pdqmb[pdqcnt](_ => Pdqmb(None, Item(0, 0)));
      count, head, unused, freelist := 0, None, 0, None;
      swait, rwait, got, dlist, flist := [], [], map[], [], [];
    }

    /** The first part of enqueue_pridata: a block that is in neither list. */
    method TakeBlock() returns (b: nat)
      requires BlocksOk() && count < pdqcnt
      modifies `unused, `freelist, `flist
      ensures b < unused <= pdqcnt && b !in dlist && b !in flist
      ensures IsList(pdqmb[..], freelist, flist) && Distinct(flist)
      ensures forall c: nat :: c in flist ==> c !in dlist
      ensures forall c: nat :: c in dlist || c in flist || c == b <==> c < unused
      ensures |dlist| + |flist| + 1 == unused
    {
      if freelist.Some? {
        ListHead(pdqmb[..], freelist, flist);
        ListTail(pdqmb[..], freelist, flist);
        b := freelist.value;
        assert flist == [b] + flist[1..];
        freelist := pdqmb[b].next;
        flist := flist[1..];
      } else {
        b := unused;
        unused := unused + 1;
      }
    }

    /** The search of enqueue_pridata: whose pointer the new block comes to, that of the queue or that
        of a block, and the block that it goes before. */
    method FindPlace(datapri: int) returns (pp: Option<nat>, next: Option<nat>, ghost k: nat)
      requires IsList(pdqmb[..], head, dlist)
      ensures k == Spot(Contents(), datapri) && next == Pointer(dlist, Spot(Contents(), datapri))
      ensures pp == if Spot(Contents(), datapri) == 0 then None else Some(dlist[Spot(Contents(), datapri) - 1])
      ensures k > 0 ==> dlist[k - 1] < pdqmb.Length && dlist[k - 1] in dlist
    {
      hide IsList, Spot;
      ghost var mem := pdqmb[..];
      pp, next, k := None, head, 0;
      ListStart(mem, head, dlist);
      while next.Some?
        invariant k <= |dlist| && next == Pointer(dlist, k) && pp == if k == 0 then None else Some(dlist[k - 1])
        invariant forall i :: 0 <= i < k ==> Items(mem, dlist)[i].datapri <= datapri
        invariant k > 0 ==> dlist[k - 1] < pdqmb.Length && dlist[k - 1] in dlist
        decreases |dlist| - k
      {
        ListAt(mem, head, dlist, k);
        if pdqmb[next.value].item.datapri > datapri {
          break;
        }
        pp := next;
        next := pdqmb[next.value].next;
        k := k + 1;
      }
      SpotIs(Items(mem, dlist), datapri, k);
    }

    /** enqueue_pridata: the data goes behind all data that comes no later. */
    method EnqueuePridata(x: Item)
      requires DataOk() && count < pdqcnt
      modifies `count, `head, `unused, `freelist, `dlist, `flist, pdqmb
      ensures DataOk() && Contents() == Insert(old(Contents()), x) && count == old(count) + 1
    {
      hide Distinct, Ordered, IsList, Items, Pointer, Spot;
      var b := TakeBlock();
      ghost var mem, l, first := pdqmb[..], dlist, head;
      var pp, next, k := FindPlace(x.datapri);
      pdqmb[b] := Pdqmb(next, x);
      if pp == None {
        head := Some(b);
      } else {
        pdqmb[pp.value] := pdqmb[pp.value].(next := Some(b));
      }
      dlist := InsertAt(l, k, b);
      count := count + 1;
      ListInsert(mem, pdqmb[..], first, l, k, b, x);
      DistinctInsert(l, k, b);
      InsertMembers(l, k, b);
      ListIgnores(mem, pdqmb[..], freelist, flist);
      InsertKeepsOrder(Items(mem, l), x);
    }

    /** dequeue_pridata */
    method DequeuePridata() returns (x: Item)
      requires DataOk() && count > 0
      modifies `count, `head, `freelist, `dlist, `flist, pdqmb
      ensures DataOk() && x == old(Contents())[0] && Contents() == old(Contents())[1..] && count == old(count) - 1
    {
      hide Distinct, IsList;
      ListHead(pdqmb[..], head, dlist);
      ListMove(pdqmb[..], head, dlist, freelist, flist);
      DistinctMove(dlist, flist);
      OrderedTail(Contents());
      var b := head.value;
      head := pdqmb[b].next;
      count := count - 1;
      x := pdqmb[b].item;
      pdqmb[b] := pdqmb[b].(next := freelist);
      freelist := Some(b);
      dlist := dlist[1..];
      flist := [b] + flist;
    }

    lemma CountIs()
      requires DataOk()
      ensures count == |Contents()| <= pdqcnt && pdqmb.Length == pdqcnt
    {
    }

    /** send_pridata */
    method SendPridata(x: Item) returns (ok: bool, receiver: Option<TaskId>)
      requires Inv()
      modifies `count, `head, `unused, `freelist, `dlist, `flist, `rwait, `got, pdqmb
      ensures Inv()
      ensures ok <==> old(rwait) != [] || old(|Contents()|) < pdqcnt
      ensures receiver == if old(rwait) == [] then None else Some(old(rwait)[0])
      ensures rwait == if old(rwait) == [] then [] else old(rwait)[1..]
      ensures got == if old(rwait) == [] then old(got) else old(got)[old(rwait)[0] := x]
      ensures Contents() == if old(rwait) == [] && ok then Insert(old(Contents()), x) else old(Contents())
    {
      hide DataOk, Insert, Items, WaitQueue.ByPriority, WaitQueue.Join;
      CountIs();
      receiver := None;
      if rwait != [] {
        receiver := Some(rwait[0]);
        got := got[rwait[0] := x];
        rwait := rwait[1..];
        ok := true;
      } else if count < pdqcnt {
        EnqueuePridata(x);
        ok := true;
      } else {
        ok := false;
      }
    }

    /** snd_pdq, psnd_pdq and tsnd_pdq, for task t of priority pri. No result means that the task is
        blocked. */
    method SndPdq(t: TaskId, pri: nat, raster: bool, x: Item, tmo: Tmo) returns (ercd: Option<Error>, receiver: Option<TaskId>)
      requires Inv()
      modifies this, pdqmb
      ensures Inv()
      ensures ercd == if !(1 <= x.datapri <= maxdpri) then Some(E_PAR)
                      else if raster then Some(E_RASTER)
                      else if old(rwait) != [] || old(|Contents()|) < pdqcnt then Some(E_OK)
                      else if tmo.Poll? then Some(E_TMOUT) else None
      ensures receiver == if ercd == Some(E_OK) && old(rwait) != [] then Some(old(rwait)[0]) else None
      ensures rwait == if receiver == None then old(rwait) else old(rwait)[1..]
      ensures got == if receiver == None then old(got) else old(got)[receiver.value := x]
      ensures swait == if ercd == None then WaitQueue.Join(old(swait), WaitQueue.Waiter(t, pri, x), byPriority) else old(swait)
      ensures Contents() == if ercd == Some(E_OK) && receiver == None then Insert(old(Contents()), x) else old(Contents())
    {
      hide DataOk, Insert, Items, WaitQueue.ByPriority, WaitQueue.Join;
      CountIs();
      receiver := None;
      if !(1 <= x.datapri <= maxdpri) {
        ercd := Some(E_PAR);
      } else if raster {
        ercd := Some(E_RASTER);
      } else {
        var ok;
        ok, receiver := SendPridata(x);
        if ok {
          ercd := Some(E_OK);
        } else if tmo.Poll? {
          ercd := Some(E_TMOUT);
        } else {
          CountIs();
          if byPriority {
            WaitQueue.JoinKeepsOrder(swait, WaitQueue.Waiter(t, pri, x));
          }
          swait := WaitQueue.Join(swait, WaitQueue.Waiter(t, pri, x), byPriority);
          ercd := None;
        }
      }
    }

    /** receive_pridata: the first data, or that of the first blocked sender if there is none. The place
        that becomes free goes to the first blocked sender. */
    method ReceivePridata() returns (x: Option<Item>, sender: Option<TaskId>)
      requires Inv()
      modifies `count, `head, `unused, `freelist, `dlist, `flist, `swait, pdqmb
      ensures Inv() && |old(Contents())| <= pdqcnt
      ensures sender == if old(swait) == [] then None else Some(old(swait)[0].task)
      ensures swait == if old(swait) == [] then [] else old(swait)[1..]
      ensures x == if old(Contents()) != [] then Some(old(Contents())[0])
                   else if old(swait) != [] then Some(old(swait)[0].info) else None
      ensures Contents() == if old(Contents()) == [] then []
                            else if old(swait) == [] then old(Contents())[1..]
                            else Insert(old(Contents())[1..], old(swait)[0].info)
    {
      hide DataOk, Insert, Items, WaitQueue.ByPriority, WaitQueue.Join;
      CountIs();
      sender := None;
      if count > 0 {
        var d := DequeuePridata();
        x := Some(d);
        if swait != [] {
          sender := Some(swait[0].task);
          CountIs();
          EnqueuePridata(swait[0].info);
          WaitQueue.HeadLeaves(swait);
          swait := swait[1..];
        }
        CountIs();
      } else if swait != [] {
        sender := Some(swait[0].task);
        x := Some(swait[0].info);
        WaitQueue.HeadLeaves(swait);
        swait := swait[1..];
      } else {
        x := None;
      }
    }

    /** rcv_pdq, prcv_pdq and trcv_pdq, for task t. */
    method RcvPdq(t: TaskId, raster: bool, tmo: Tmo) returns (ercd: Option<Error>, x: Option<Item>, sender: Option<TaskId>)
      requires Inv()
      modifies this, pdqmb
      ensures Inv()
      ensures ercd == if raster then Some(E_RASTER)
                      else if old(Contents()) != [] || old(swait) != [] then Some(E_OK)
                      else if tmo.Poll? then Some(E_TMOUT) else None
      ensures x == if ercd != Some(E_OK) then None
                   else if old(Contents()) != [] then Some(old(Contents())[0]) else Some(old(swait)[0].info)
      ensures rwait == if ercd == None then old(rwait) + [t] else old(rwait)
      ensures if ercd == Some(E_OK) && old(swait) != []
              then sender == Some(old(swait)[0].task) && swait == old(swait)[1..] else sender == None && swait == old(swait)
      ensures Contents() == if ercd != Some(E_OK) || old(Contents()) == [] then old(Contents())
                            else if old(swait) == [] then old(Contents())[1..]
                            else Insert(old(Contents())[1..], old(swait)[0].info)
    {
      hide DataOk, Insert, Items, WaitQueue.ByPriority, WaitQueue.Join;
      x, sender := None, None;
      if raster {
        ercd := Some(E_RASTER);
      } else {
        x, sender := ReceivePridata();
        CountIs();
        if x.Some? {
          ercd := Some(E_OK);
        } else if tmo.Poll? {
          ercd := Some(E_TMOUT);
        } else {
          rwait := rwait + [t];
          ercd := None;
        }
      }
    }

    /** The i-th blocked sender stops waiting: only its data is withdrawn. */
    method SenderLeaves(i: nat)
      requires Inv() && i < |swait|
      modifies `swait
      ensures Inv() && swait == WaitQueue.Leave(old(swait), i)
    {
      hide DataOk, WaitQueue.ByPriority, WaitQueue.Leave;
      if byPriority {
        WaitQueue.LeaveKeepsOrder(swait, i);
      }
      swait := WaitQueue.Leave(swait, i);
    }

    /** The i-th blocked sender gets another priority. */
    method SenderChangesPriority(i: nat, pri: nat)
      requires Inv() && i < |swait|
      modifies `swait
      ensures Inv() && swait == WaitQueue.Requeue(old(swait), i, pri, byPriority)
    {
      hide DataOk, WaitQueue.ByPriority, WaitQueue.Requeue;
      if byPriority {
        WaitQueue.RequeueKeepsOrder(swait, i, pri);
      }
      swait := WaitQueue.Requeue(swait, i, pri, byPriority);
    }

    /** The i-th blocked receiver stops waiting. */
    method ReceiverLeaves(i: nat)
      requires Inv() && i < |rwait|
      modifies `rwait
      ensures Inv() && rwait == old(rwait)[..i] + old(rwait)[i + 1..]
    {
      hide DataOk, WaitQueue.ByPriority;
      rwait := rwait[..i] + rwait[i + 1..];
    }

    /** ini_pdq: the blocks of the list are forgotten, and all blocks are unused again. */
    method IniPdq() returns (released: seq<TaskId>)
      requires Inv()
      modifies `count, `head, `unused, `freelist, `dlist, `flist, `swait, `rwait
      ensures Inv() && Contents() == [] && unused == 0 && swait == [] && rwait == []
      ensures released == WaitQueue.Tasks(old(swait)) + old(rwait)
    {
      released := WaitQueue.Tasks(swait) + rwait;
      swait, rwait := [], [];
      count, head, unused, freelist := 0, None, 0, None;
      dlist, flist := [], [];
    }
  }
}
