/** The intrusive queues of hrp3_wo_tecs/include/queue.h: rings of doubly linked entries with a
    header, proved to be sequences. Also the priority-ordered insertion of
    hrp3_wo_tecs/kernel/wait.h, which walks such a ring. */
module RingQueue {
  import opened Common

  /** A queue entry. The header of a queue is an entry as well; a task's control block starts
      with one, which is why an entry carries a priority here. */
  class Entry {
    var next: Entry?
    var prev: Entry?
    var priority: nat

    constructor (pri: nat)
      ensures priority == pri
    {
      next, prev, priority := null, null, pri;
    }
  }

  /** The entries of ring, header first, are linked into one cycle in this order. */
  ghost predicate IsRing(ring: seq<Entry>)
    reads ring
  {
    && |ring| > 0
    && Distinct(ring)
    && (forall i {:trigger ring[i].next} :: 0 <= i < |ring| - 1 ==> ring[i].next == ring[i + 1])
    && (forall i {:trigger ring[i].prev} :: 1 <= i < |ring| ==> ring[i].prev == ring[i - 1])
    && ring[|ring| - 1].next == ring[0]
    && ring[0].prev == ring[|ring| - 1]
  }

  /** What a queue holds: its ring without the header. */
  function Contents<T>(ring: seq<T>): seq<T>
    requires |ring| > 0
  {
    ring[1..]
  }

  function RemoveAt<T>(s: seq<T>, k: nat): seq<T>
    requires k < |s|
  {
    s[..k] + s[k + 1..]
  }

  /** Links around a new entry make a ring of one more. */
  lemma Spliced(ring: seq<Entry>, p: nat, entry: Entry)
    requires 0 < p <= |ring| && Distinct(ring) && Distinct(InsertAt(ring, p, entry))
    requires forall i {:trigger ring[i].next} :: 0 <= i < |ring| ==>
      ring[i].next == if i == p - 1 then entry else if i == |ring| - 1 then ring[0] else ring[i + 1]
    requires forall i {:trigger ring[i].prev} :: 0 <= i < |ring| ==>
      ring[i].prev == if p < |ring| && i == p then entry else if i == 0 then (if p == |ring| then entry else ring[|ring| - 1]) else ring[i - 1]
    requires entry.prev == ring[p - 1] && entry.next == if p == |ring| then ring[0] else ring[p]
    ensures IsRing(InsertAt(ring, p, entry))
  {
    hide InsertAt, Distinct;
    var r := InsertAt(ring, p, entry);
    InsertIndex(ring, p, entry, 0);
    InsertIndex(ring, p, entry, |ring|);
    forall i: nat | i < |r|
      ensures i < |r| - 1 ==> r[i].next == r[i + 1]
      ensures i > 0 ==> r[i].prev == r[i - 1]
    {
      InsertIndex(ring, p, entry, i);
      if i < |r| - 1 {
        InsertIndex(ring, p, entry, i + 1);
      }
      if i > 0 {
        InsertIndex(ring, p, entry, i - 1);
      }
    }
  }

  method Initialize(header: Entry)
    modifies header
    ensures IsRing([header])
    ensures header.priority == old(header.priority)
  {
    header.prev := header;
    header.next := header;
  }

  /** Inserts entry before the k-th entry of the ring. Before the header means at the tail. */
  method InsertPrev(at: Entry, entry: Entry, ghost ring: seq<Entry>, ghost k: nat)
    requires IsRing(ring) && k < |ring| && at == ring[k] && entry !in ring
    modifies ring, entry
    ensures IsRing(InsertAt(ring, if k == 0 then |ring| else k, entry))
    ensures forall e :: e in ring || e == entry ==> e.priority == old(e.priority)
  {
    hide InsertAt;
    ghost var p := if k == 0 then |ring| else k;
    ghost var ring' := InsertAt(ring, p, entry);
    DistinctInsert(ring, p, entry);
    entry.prev := at.prev;
    entry.next := at;
    at.prev.next := entry;
    at.prev := entry;
    Spliced(ring, p, entry);
  }

  /** Inserts entry after the k-th entry of the ring. After the header means at the head. */
  method InsertNext(at: Entry, entry: Entry, ghost ring: seq<Entry>, ghost k: nat)
    requires IsRing(ring) && k < |ring| && at == ring[k] && entry !in ring
    modifies ring, entry
    ensures IsRing(InsertAt(ring, k + 1, entry))
    ensures forall e :: e in ring || e == entry ==> e.priority == old(e.priority)
  {
    hide InsertAt;
    ghost var ring' := InsertAt(ring, k + 1, entry);
    DistinctInsert(ring, k + 1, entry);
    entry.prev := at;
    entry.next := at.next;
    at.next.prev := entry;
    at.next := entry;
    Spliced(ring, k + 1, entry);
  }

  /** Deletes an entry, wherever it stands in the queue. */
  method Delete(entry: Entry, ghost ring: seq<Entry>, ghost k: nat)
    requires IsRing(ring) && 0 < k < |ring| && entry == ring[k]
    modifies ring
    ensures IsRing(RemoveAt(ring, k))
    ensures entry.next == old(entry.next) && entry.prev == old(entry.prev)
    ensures forall e :: e in ring ==> e.priority == old(e.priority)
  {
    entry.prev.next := entry.next;
    entry.next.prev := entry.prev;
    ghost var ring' := RemoveAt(ring, k);
    assert forall i :: 0 <= i < |ring'| ==> ring'[i] == if i < k then ring[i] else ring[i + 1];
    assert ring[k] == entry && entry !in ring';
  }

  /** Takes the entry after the header out of a non-empty queue. */
  method DeleteNext(header: Entry, ghost ring: seq<Entry>) returns (entry: Entry)
    requires IsRing(ring) && header == ring[0] && Contents(ring) != []
    modifies ring
    ensures entry == Contents(ring)[0]
    ensures IsRing([header] + Contents(ring)[1..])
    ensures forall e :: e in ring ==> e.priority == old(e.priority)
  {
    entry := header.next;
    header.next := entry.next;
    entry.next.prev := header;
    ghost var ring' := [header] + Contents(ring)[1..];
    assert forall i :: 0 <= i < |ring'| ==> ring'[i] == if i == 0 then header else ring[i + 1];
  }

  method Empty(header: Entry, ghost ring: seq<Entry>) returns (empty: bool)
    requires IsRing(ring) && header == ring[0]
    ensures empty <==> Contents(ring) == []
  {
    empty := header.next == header;
    if empty {
      assert header.prev == header;
    }
  }

  // ---------- Insertion in priority order ----------

  ghost function Priorities(s: seq<Entry>): (p: seq<nat>)
    reads s
    ensures |p| == |s| && forall i :: 0 <= i < |s| ==> p[i] == s[i].priority
  {
    if s == [] then [] else [s[0].priority] + Priorities(s[1..])
  }

  lemma InsertBehindHeader<T>(ring: seq<T>, place: nat, x: T)
    requires 0 < place <= |ring|
    ensures InsertAt(ring, place, x) == [ring[0]] + InsertAt(Contents(ring), place - 1, x)
  {
  }

  /** Walks the queue to the first entry of lower urgency and inserts before it. */
  method InsertByPriority(header: Entry, entry: Entry, ghost ring: seq<Entry>)
    requires IsRing(ring) && header == ring[0] && entry !in ring
    modifies ring, entry
    ensures var k := PriorityPlace(old(Priorities(Contents(ring))), old(entry.priority));
            IsRing([header] + InsertAt(Contents(ring), k, entry))
    ensures forall e :: e in ring || e == entry ==> e.priority == old(e.priority)
  {
    var pri := entry.priority;
    var e := header.next;
    ghost var k := if |ring| == 1 then 0 else 1;
    while e != header
      invariant k < |ring| && e == ring[k]
      invariant forall i :: 1 <= i < (if k == 0 then |ring| else k) ==> ring[i].priority <= pri
      decreases if k == 0 then 0 else |ring| - k
    {
      if pri < e.priority {
        break;
      }
      e := e.next;
      k := if k + 1 == |ring| then 0 else k + 1;
    }
    ghost var place := if k == 0 then |ring| else k;
    assert forall i :: 0 <= i < |ring| - 1 ==> Contents(ring)[i] == ring[i + 1];
    PriorityPlaceIs(Priorities(Contents(ring)), pri, place - 1);
    InsertBehindHeader(ring, place, entry);
    InsertPrev(e, entry, ring, k);
  }
}
