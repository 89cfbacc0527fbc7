/** Message buffers of hrp3_wo_tecs/kernel/messagebuf.c: messages of any length in a byte ring, each
    behind a word that holds its length, and the tasks that are blocked on them. */
module MessageBuffer {
  import opened Common

  newtype byte = x: int | 0 <= x < 256

  /** A blocked sender, with the message that its wait information block points to. */
  datatype Sender = Sender(task: TaskId, msg: seq<byte>)

  const WORD: nat := 4
  const UINT_RANGE: nat := 0x1_0000_0000

  // ---------- Sizes ----------

  /** TOPPERS_ROUND_SZ(sz, sizeof(uint_t)) */
  function Round(sz: nat): (r: nat)
    ensures sz <= r < sz + WORD && r % WORD == 0
    ensures forall k: nat :: sz <= k && k % WORD == 0 ==> r <= k
  {
    (sz + WORD - 1) / WORD * WORD
  }

  lemma RoundSplit(a: nat, b: nat)
    requires a % WORD == 0
    ensures Round(a + b) == a + Round(b)
  {
  }

  /** Where a copy of sz bytes from pos on leads to, around a ring of n, in one part or in two. */
  lemma NextPlace(pos: nat, sz: nat, n: nat)
    requires pos < n && pos % WORD == 0 && n % WORD == 0 && Round(sz) <= n
    ensures var r := if n - pos < sz then Round(sz - (n - pos)) else pos + Round(sz);
            && Around(pos + Round(sz), n) == (if r >= n then 0 else r)
            && Around(pos + Round(sz), n) % WORD == 0
  {
    hide Round;
    var rem := n - pos;
    assert rem % WORD == 0;
    if rem < sz {
      RoundSplit(rem, sz - rem);
    }
  }

  function Alloc(sz: nat): nat {
    WORD + Round(sz)
  }

  /** The same in unsigned words, as the code computes it. */
  function AllocSz(sz: nat): nat {
    (WORD + (sz + WORD - 1) % UINT_RANGE / WORD * WORD) % UINT_RANGE
  }

  /** The size of an allocation is right exactly for messages up to eight bytes short of 2^32. */
  lemma AllocSzRight(sz: nat)
    requires sz < UINT_RANGE
    ensures AllocSz(sz) == Alloc(sz) <==> sz <= UINT_RANGE - 8
  {
    if sz + WORD - 1 < UINT_RANGE {
      assert (sz + WORD - 1) % UINT_RANGE == sz + WORD - 1;
    } else {
      assert (sz + WORD - 1) % UINT_RANGE == sz + WORD - 1 - UINT_RANGE;
    }
  }

  function Used(msgs: seq<seq<byte>>): nat {
    if msgs == [] then 0 else Alloc(|msgs[0]|) + Used(msgs[1..])
  }

  lemma {:induction false} UsedSnoc(msgs: seq<seq<byte>>, m: seq<byte>)
    ensures Used(msgs + [m]) == Used(msgs) + Alloc(|m|)
  {
    if msgs == [] {
      assert msgs + [m] == [m] && [m][1..] == [];
    } else {
      assert (msgs + [m])[1..] == msgs[1..] + [m];
      UsedSnoc(msgs[1..], m);
    }
  }

  // ---------- Words ----------

  function WordBytes(n: nat): (s: seq<byte>)
    requires n < UINT_RANGE
    ensures |s| == WORD
  {
    [(n % 256) as byte, (n / 256 % 256) as byte, (n / 65536 % 256) as byte, (n / 16777216) as byte]
  }

  function WordOf(s: seq<byte>): nat
    requires |s| == WORD
  {
    s[0] as nat + s[1] as nat * 256 + s[2] as nat * 65536 + s[3] as nat * 16777216
  }

  lemma WordRoundTrip(n: nat)
    requires n < UINT_RANGE
    ensures WordOf(WordBytes(n)) == n
  {
    var a, b := n / 256, n / 65536;
    assert n == a * 256 + n % 256;
    assert a / 256 == b && a == b * 256 + a % 256;
    assert b / 256 == n / 16777216 && b == n / 16777216 * 256 + b % 256;
  }

  // ---------- The ring ----------

  /** Position p is one of the len positions from start on, around a ring of n. */
  predicate Within(p: nat, start: nat, len: nat, n: nat) {
    if start + len <= n then start <= p < start + len else start <= p || p < start + len - n
  }

  /** The bytes of s are in the ring from start on. */
  ghost predicate At(mem: seq<byte>, start: nat, s: seq<byte>) {
    && start < |mem| && |s| <= |mem|
    && forall k :: 0 <= k < |s| ==> mem[Around(start + k, |mem|)] == s[k]
  }

  /** The messages of msgs are in the ring from start on, one after another, each behind its length. */
  ghost predicate Stored(mem: seq<byte>, start: nat, msgs: seq<seq<byte>>)
    decreases msgs
  {
    msgs == [] ||
    var m := msgs[0];
    && start < |mem| && Used(msgs) <= |mem| && |m| < UINT_RANGE
    && At(mem, start, WordBytes(|m|))
    && At(mem, Around(start + WORD, |mem|), m)
    && Stored(mem, Around(start + Alloc(|m|), |mem|), msgs[1..])
  }

  lemma AtFrame(mem: seq<byte>, mem': seq<byte>, start: nat, s: seq<byte>)
    requires At(mem, start, s) && |mem'| == |mem|
    requires forall p: nat :: p < |mem| && Within(p, start, |s|, |mem|) ==> mem'[p] == mem[p]
    ensures At(mem', start, s)
  {
  }

  /** What is stored does not depend on the rest of the ring. */
  lemma {:induction false} StoredFrame(mem: seq<byte>, mem': seq<byte>, start: nat, msgs: seq<seq<byte>>)
    requires Stored(mem, start, msgs) && |mem'| == |mem|
    requires forall p: nat :: p < |mem| && Within(p, start, Used(msgs), |mem|) ==> mem'[p] == mem[p]
    ensures Stored(mem', start, msgs)
    decreases msgs
  {
    hide WordBytes, At, Round;
    if msgs != [] {
      var m := msgs[0];
      AtFrame(mem, mem', start, WordBytes(|m|));
      AtFrame(mem, mem', Around(start + WORD, |mem|), m);
      StoredFrame(mem, mem', Around(start + Alloc(|msgs[0]|), |mem|), msgs[1..]);
    }
  }

  /** One more message is stored behind the others. */
  lemma {:induction false} StoredSnoc(mem: seq<byte>, start: nat, msgs: seq<seq<byte>>, m: seq<byte>)
    requires Stored(mem, start, msgs) && start < |mem| && Used(msgs) + Alloc(|m|) <= |mem| && |m| < UINT_RANGE
    requires At(mem, Around(start + Used(msgs), |mem|), WordBytes(|m|))
    requires At(mem, Around(Around(start + Used(msgs), |mem|) + WORD, |mem|), m)
    ensures Stored(mem, start, msgs + [m])
    decreases msgs
  {
    hide WordBytes, At, Round;
    UsedSnoc(msgs, m);
    if msgs == [] {
      assert msgs + [m] == [m] && [m][1..] == [];
    } else {
      var next := Around(start + Alloc(|msgs[0]|), |mem|);
      assert (msgs + [m])[1..] == msgs[1..] + [m];
      StoredSnoc(mem, next, msgs[1..], m);
    }
  }

  /** Bytes in the ring are a slice of the memory, or two. */
  lemma AtSlice(mem: seq<byte>, start: nat, s: seq<byte>)
    requires At(mem, start, s)
    ensures s == if start + |s| <= |mem| then mem[start..start + |s|] else mem[start..] + mem[..start + |s| - |mem|]
  {
    var r := if start + |s| <= |mem| then mem[start..start + |s|] else mem[start..] + mem[..start + |s| - |mem|];
    forall k | 0 <= k < |s|
      ensures r[k] == s[k]
    {
      assert mem[Around(start + k, |mem|)] == s[k];
    }
  }

  /** The first stored message can be read back. */
  lemma StoredHead(mem: seq<byte>, head: nat, msgs: seq<seq<byte>>)
    requires Stored(mem, head, msgs) && msgs != [] && |mem| % WORD == 0 && head % WORD == 0
    ensures var m := msgs[0];
            && head + WORD <= |mem| && |m| < UINT_RANGE && Round(|m|) <= |mem|
            && WordOf(mem[head..head + WORD]) == |m|
            && At(mem, Around(head + WORD, |mem|), m)
            && Stored(mem, Around(head + Alloc(|m|), |mem|), msgs[1..])
            && Used(msgs) == Alloc(|m|) + Used(msgs[1..]) <= |mem|
  {
    hide At, WordBytes, WordOf;
    AtSlice(mem, head, WordBytes(|msgs[0]|));
    WordRoundTrip(|msgs[0]|);
  }

  /** The length and then the bytes of a message are written behind the stored messages. */
  lemma EnqueueStores(mem: seq<byte>, mem1: seq<byte>, mem2: seq<byte>, head: nat, msgs: seq<seq<byte>>, m: seq<byte>, start: nat, pos: nat)
    requires Stored(mem, head, msgs) && head < |mem| == |mem1| == |mem2| && Used(msgs) + Alloc(|m|) <= |mem| && |m| < UINT_RANGE
    requires start == Around(head + Used(msgs), |mem|) && pos == Around(start + WORD, |mem|)
    requires At(mem1, start, WordBytes(|m|)) && At(mem2, pos, m)
    requires forall p: nat :: p < |mem| && !Within(p, start, WORD, |mem|) ==> mem1[p] == mem[p]
    requires forall p: nat :: p < |mem| && !Within(p, pos, |m|, |mem|) ==> mem2[p] == mem1[p]
    ensures Stored(mem2, head, msgs + [m])
  {
    hide Stored, Used, WordBytes, At;
    StoredFrame(mem, mem2, head, msgs);
    AtFrame(mem1, mem2, start, WordBytes(|m|));
    StoredSnoc(mem2, head, msgs, m);
  }

  /** The messages of blocked senders. */
  function Messages(s: seq<Sender>): (r: seq<seq<byte>>)
    ensures |r| == |s| && forall k :: 0 <= k < |s| ==> r[k] == s[k].msg
  {
    if s == [] then [] else [s[0].msg] + Messages(s[1..])
  }

  lemma MessagesConcat(s: seq<Sender>, r: seq<Sender>)
    ensures Messages(s + r) == Messages(s) + Messages(r)
  {
  }

  lemma MessagesMove(msgs: seq<seq<byte>>, s: seq<Sender>)
    requires s != []
    ensures (msgs + [s[0].msg]) + Messages(s[1..]) == msgs + Messages(s)
  {
  }

  /** The tasks that went on are the first ones of the queue; the others are still in it. */
  ghost predicate Gone(was: seq<Sender>, now: seq<Sender>, released: seq<TaskId>) {
    && |released| <= |was| && now == was[|released|..]
    && forall i :: 0 <= i < |released| ==> released[i] == was[i].task
  }

  lemma GoneMeans(was: seq<Sender>, now: seq<Sender>, released: seq<TaskId>)
    requires Gone(was, now, released)
    ensures |released| <= |was| && now == was[|released|..]
    ensures forall i :: 0 <= i < |released| ==> released[i] == was[i].task
  {
  }

  lemma GoneNone(was: seq<Sender>)
    ensures Gone(was, was, [])
  {
  }

  lemma GoneOne(was: seq<Sender>, now: seq<Sender>, released: seq<TaskId>)
    requires Gone(was, now, released) && now != []
    ensures Gone(was, now[1..], released + [now[0].task])
    ensures forall s :: s in now[1..] ==> s in now
  {
    assert now[0] == was[|released|];
  }

  class Buffer {
    const maxmsz: nat
    const mbfsz: nat
    const mbuffer: array<byte>

    var fmbfsz: nat
    var head: nat
    var tail: nat
    var smbfcnt: nat

    /** The tasks that are blocked sending and receiving, in the order of their arrival. */
    var swait: seq<Sender>
    var rwait: seq<TaskId>

    /** What has been copied to receivers that were blocked. */
    var inbox: map<TaskId, seq<byte>>

    /** The messages in the ring, oldest first. */
    ghost var msgs: seq<seq<byte>>

    /** A legal message. */
    predicate Legal(m: seq<byte>) {
      0 < |m| <= maxmsz
    }

    /** The ring holds the messages. */
    ghost predicate RingOk()
      reads `fmbfsz, `head, `tail, `smbfcnt, `msgs, mbuffer
    {
      && maxmsz <= UINT_RANGE - 8
      && mbuffer.Length == mbfsz && mbfsz % WORD == 0
      && head % WORD == 0 && tail % WORD == 0
      && (mbfsz == 0 ==> head == 0 && tail == 0) && (mbfsz > 0 ==> head < mbfsz && tail < mbfsz)
      && smbfcnt == |msgs|
      && Used(msgs) <= mbfsz && fmbfsz == mbfsz - Used(msgs)
      && tail == Around(head + Used(msgs), mbfsz)
      && (forall m :: m in msgs ==> Legal(m))
      && Stored(mbuffer[..], head, msgs)
    }

    /** initialize_messagebuf */
    constructor (maxmsz: nat, mbfsz: nat)
      requires 0 < maxmsz < UINT_RANGE && mbfsz % WORD == 0
      ensures Inv() <==> maxmsz <= UINT_RANGE - 8
      ensures fresh(mbuffer) && this.maxmsz == maxmsz && this.mbfsz == mbfsz && fmbfsz == mbfsz && smbfcnt == 0
      ensures msgs == [] && swait == [] && rwait == []
    {
      this.maxmsz, this.mbfsz := maxmsz, mbfsz;
      mbuffer := new byte[mbfsz];
      fmbfsz, head, tail, smbfcnt := mbfsz, 0, 0, 0;
      swait, rwait, msgs, inbox := [], [], [], map[];
    }

    /** memcpy into the ring */
    method CopyIn(pos: nat, msg: seq<byte>, from: nat, len: nat)
      requires pos + len <= mbuffer.Length && from + len <= |msg|
      modifies mbuffer
      ensures forall p :: 0 <= p < mbuffer.Length ==>
                mbuffer[p] == if pos <= p < pos + len then msg[from + p - pos] else old(mbuffer[p])
    {
      var i := 0;
      while i < len
        invariant i <= len
        invariant forall p :: 0 <= p < mbuffer.Length ==>
                    mbuffer[p] == if pos <= p < pos + i then msg[from + p - pos] else old(mbuffer[p])
      {
        mbuffer[pos + i] := msg[from + i];
        i := i + 1;
      }
    }

    /** The two copies of enqueue_message, the second one from the start of the ring. */
    method PutBytes(pos: nat, msg: seq<byte>) returns (next: nat)
      requires mbuffer.Length == mbfsz && pos < mbfsz && pos % WORD == 0 && mbfsz % WORD == 0 && Round(|msg|) <= mbfsz
      modifies mbuffer
      ensures next == Around(pos + Round(|msg|), mbfsz) && next % WORD == 0
      ensures At(mbuffer[..], pos, msg)
      ensures forall p :: 0 <= p < mbfsz && !Within(p, pos, |msg|, mbfsz) ==> mbuffer[p] == old(mbuffer[p])
    {
      hide Round;
      NextPlace(pos, |msg|, mbfsz);
      next := pos;
      var from, msgsz := 0, |msg|;
      var remsz := mbfsz - next;
      if remsz < msgsz {
        CopyIn(next, msg, 0, remsz);
        from := remsz;
        msgsz := msgsz - remsz;
        next := 0;
      }
      CopyIn(next, msg, from, msgsz);
      next := next + Round(msgsz);
      if next >= mbfsz {
        next := 0;
      }
    }

    /** enqueue_message */
    method EnqueueMessage(msg: seq<byte>) returns (ok: bool)
      requires RingOk() && Legal(msg)
      modifies this`fmbfsz, this`tail, this`smbfcnt, this`msgs, mbuffer
      ensures RingOk()
      ensures ok <==> Alloc(|msg|) <= old(fmbfsz)
      ensures msgs == if ok then old(msgs) + [msg] else old(msgs)
      ensures !ok ==> fmbfsz == old(fmbfsz) && smbfcnt == old(smbfcnt)
    {
      hide Stored, Used, Around, AllocSz;
      AllocSzRight(|msg|);
      var allocsz := AllocSz(|msg|);
      if allocsz > fmbfsz {
        return false;
      }
      StoreMessage(msg);
      UsedSnoc(msgs, msg);
      msgs := msgs + [msg];
      fmbfsz := fmbfsz - allocsz;
      smbfcnt := smbfcnt + 1;
      return true;
    }

    /** The part of it that writes, when there is room. */
    method StoreMessage(msg: seq<byte>)
      requires RingOk() && Legal(msg) && Alloc(|msg|) <= fmbfsz
      modifies this`tail, mbuffer
      ensures Stored(mbuffer[..], head, msgs + [msg])
      ensures tail == Around(head + Used(msgs) + Alloc(|msg|), mbfsz) && tail % WORD == 0 && tail < mbfsz
    {
      hide Stored, Used, WordBytes, At, Within, Round;
      ghost var mem := mbuffer[..];
      ghost var start := tail;
      PutWord(|msg|);
      ghost var mem1 := mbuffer[..];
      var pos := tail + WORD;
      if pos >= mbfsz {
        pos := 0;
      }
      tail := PutBytes(pos, msg);
      EnqueueStores(mem, mem1, mbuffer[..], head, msgs, msg, start, pos);
    }

    /** The store of a message's length. */
    method PutWord(n: nat)
      requires mbuffer.Length == mbfsz && tail < mbfsz && tail % WORD == 0 && mbfsz % WORD == 0 && n < UINT_RANGE
      modifies mbuffer
      ensures At(mbuffer[..], tail, WordBytes(n))
      ensures forall p :: 0 <= p < mbfsz && !Within(p, tail, WORD, mbfsz) ==> mbuffer[p] == old(mbuffer[p])
    {
      hide WordBytes;
      CopyIn(tail, WordBytes(n), 0, WORD);
    }

    /** The two copies of dequeue_message. */
    method GetBytes(pos: nat, msgsz: nat, ghost m: seq<byte>) returns (msg: seq<byte>, next: nat)
      requires mbuffer.Length == mbfsz && pos < mbfsz && pos % WORD == 0 && mbfsz % WORD == 0 && Round(msgsz) <= mbfsz
      requires At(mbuffer[..], pos, m) && |m| == msgsz
      ensures msg == m && next == Around(pos + Round(msgsz), mbfsz) && next % WORD == 0
    {
      hide At, Round, Around;
      AtSlice(mbuffer[..], pos, m);
      NextPlace(pos, msgsz, mbfsz);
      next := pos;
      msg := [];
      var copysz := msgsz;
      var remsz := mbfsz - next;
      if remsz < copysz {
        msg := mbuffer[next..next + remsz];
        copysz := copysz - remsz;
        next := 0;
      }
      msg := msg + mbuffer[next..next + copysz];
      next := next + Round(copysz);
      if next >= mbfsz {
        next := 0;
      }
    }

    /** dequeue_message */
    method DequeueMessage() returns (msg: seq<byte>)
      requires RingOk() && smbfcnt > 0
      modifies this`fmbfsz, this`head, this`smbfcnt, this`msgs
      ensures RingOk() && msg == old(msgs)[0] && msgs == old(msgs)[1..]
    {
      hide At, WordBytes, WordOf, Round, Stored, Used;
      ghost var m := msgs[0];
      assert m in msgs;
      StoredHead(mbuffer[..], head, msgs);
      var msgsz := WordOf(mbuffer[head..head + WORD]);
      var pos := head + WORD;
      if pos >= mbfsz {
        pos := 0;
      }
      msg, head := GetBytes(pos, msgsz, m);
      msgs := msgs[1..];
      fmbfsz := fmbfsz + WORD + Round(msgsz);
      smbfcnt := smbfcnt - 1;
    }

    // ---------- Blocked tasks ----------

    /** Everything that is stored and that blocked senders want to send, in one queue. */
    ghost function Pending(): seq<seq<byte>>
      reads this
    {
      msgs + Messages(swait)
    }

    /** The first blocked sender's message does not fit. */
    ghost predicate FirstBlocked()
      reads this
    {
      swait != [] ==> Alloc(|swait[0].msg|) > fmbfsz
    }

    /** Every legal message fits an empty buffer, or none does. */
    ghost predicate AllOrNoneFit() {
      Alloc(maxmsz) <= mbfsz || mbfsz < Alloc(1)
    }

    /** Receivers are blocked only while there is nothing to receive. */
    ghost predicate Valid()
      reads this, mbuffer
    {
      && RingOk()
      && (forall s :: s in swait ==> Legal(s.msg))
      && (rwait != [] ==> msgs == [] && swait == [])
    }

    /** The invariant of all operations. The condition on the sizes is the exact one: LeftBehind reaches
        a state without the property whenever it does not hold. */
    ghost predicate Inv()
      reads this, mbuffer
    {
      Valid() && (AllOrNoneFit() ==> FirstBlocked())
    }

    /** messagebuf_signal: lets the first senders go, until one's message does not fit. */
    method Signal() returns (released: seq<TaskId>)
      requires Valid()
      modifies this`fmbfsz, this`tail, this`smbfcnt, this`msgs, this`swait, mbuffer
      ensures Valid() && FirstBlocked() && Pending() == old(Pending())
      ensures Gone(old(swait), swait, released)
      ensures |released| <= |old(swait)| && swait == old(swait)[|released|..]
      ensures forall i :: 0 <= i < |released| ==> released[i] == old(swait)[i].task
      ensures old(FirstBlocked()) ==> released == [] && msgs == old(msgs) && fmbfsz == old(fmbfsz)
    {
      hide RingOk, Alloc, Messages, Gone;
      GoneNone(swait);
      released := [];
      while swait != []
        invariant Valid() && Pending() == old(Pending())
        invariant Gone(old(swait), swait, released)
        invariant released == [] ==> swait == old(swait) && msgs == old(msgs) && fmbfsz == old(fmbfsz)
        invariant old(FirstBlocked()) ==> released == []
        decreases |swait|
      {
        var s := swait[0];
        GoneOne(old(swait), swait, released);
        MessagesMove(msgs, swait);
        var ok := EnqueueMessage(s.msg);
        if !ok {
          break;
        }
        swait := swait[1..];
        released := released + [s.task];
      }
      GoneMeans(old(swait), swait, released);
    }

    /** send_message: hands the message to the first blocked receiver, or stores it unless senders are
        blocked or there is no room. */
    method SendMessage(msg: seq<byte>) returns (ok: bool, receiver: Option<TaskId>)
      requires Inv() && Legal(msg)
      modifies this`fmbfsz, this`tail, this`smbfcnt, this`msgs, this`rwait, this`inbox, mbuffer
      ensures Inv()
      ensures ok <==> old(rwait) != [] || (swait == [] && Alloc(|msg|) <= old(fmbfsz))
      ensures if old(rwait) == [] then receiver == None && rwait == [] else receiver == Some(old(rwait)[0]) && rwait == old(rwait)[1..]
      ensures !ok || receiver.Some? ==> fmbfsz == old(fmbfsz) && smbfcnt == old(smbfcnt)
      ensures inbox == if receiver == None then old(inbox) else old(inbox)[receiver.value := msg]
      ensures Pending() == if ok && receiver == None then old(Pending()) + [msg] else old(Pending())
    {
      hide RingOk, Alloc;
      receiver := None;
      if rwait != [] {
        receiver := Some(rwait[0]);
        inbox := inbox[rwait[0] := msg];
        rwait := rwait[1..];
        ok := true;
      } else if swait == [] {
        ok := EnqueueMessage(msg);
      } else {
        ok := false;
      }
    }

    /** snd_mbf, psnd_mbf and tsnd_mbf, for task t. No result means that the task is blocked. */
    method SndMbf(t: TaskId, raster: bool, msg: seq<byte>, tmo: Tmo) returns (ercd: Option<Error>, receiver: Option<TaskId>)
      requires Inv()
      modifies this, mbuffer
      ensures Inv()
      ensures ercd == if !Legal(msg) then Some(E_PAR)
                      else if raster then Some(E_RASTER)
                      else if old(rwait) != [] || (old(swait) == [] && Alloc(|msg|) <= old(fmbfsz)) then Some(E_OK)
                      else if tmo.Poll? then Some(E_TMOUT) else None
      ensures receiver == if ercd == Some(E_OK) && old(rwait) != [] then Some(old(rwait)[0]) else None
      ensures rwait == if receiver == None then old(rwait) else old(rwait)[1..]
      ensures inbox == if receiver == None then old(inbox) else old(inbox)[receiver.value := msg]
      ensures swait == if ercd == None then old(swait) + [Sender(t, msg)] else old(swait)
      ensures Pending() == if ercd == None || (ercd == Some(E_OK) && receiver == None) then old(Pending()) + [msg] else old(Pending())
      ensures ercd != Some(E_OK) ==> fmbfsz == old(fmbfsz) && smbfcnt == old(smbfcnt)
      ensures old(FirstBlocked()) ==> FirstBlocked()
    {
      hide RingOk, Alloc;
      receiver := None;
      if !(0 < |msg| <= maxmsz) {
        ercd := Some(E_PAR);
      } else if raster {
        ercd := Some(E_RASTER);
      } else {
        var ok;
        ok, receiver := SendMessage(msg);
        if ok {
          ercd := Some(E_OK);
        } else if tmo.Poll? {
          ercd := Some(E_TMOUT);
        } else {
          MessagesConcat(swait, [Sender(t, msg)]);
          swait := swait + [Sender(t, msg)];
          ercd := None;
        }
      }
    }

    /** receive_message: the empty message stands for the result zero. */
    method ReceiveMessage() returns (msg: seq<byte>, released: seq<TaskId>)
      requires Inv()
      modifies this`fmbfsz, this`head, this`tail, this`smbfcnt, this`msgs, this`swait, mbuffer
      ensures Inv()
      ensures if old(Pending()) == [] then msg == [] && Pending() == []
              else Legal(msg) && msg == old(Pending())[0] && Pending() == old(Pending())[1..]
      ensures |released| <= |old(swait)| && swait == old(swait)[|released|..]
      ensures forall i :: 0 <= i < |released| ==> released[i] == old(swait)[i].task
      ensures old(smbfcnt) > 0 ==> FirstBlocked()
      ensures old(smbfcnt) == 0 ==> |released| == (if old(swait) == [] then 0 else 1) && fmbfsz == old(fmbfsz)
      // Who is left behind, in a buffer that is too small for some messages.
      ensures old(FirstBlocked()) ==> (FirstBlocked() <==> !old(LeavesBehind()))
    {
      hide Stored, Alloc;
      if smbfcnt > 0 {
        assert msgs[0] in msgs;
        msg := DequeueMessage();
        released := Signal();
      } else if swait != [] {
        EmptyFits(swait[0].msg);
        if |swait| > 1 {
          EmptyFits(swait[1].msg);
        }
        msg := swait[0].msg;
        released := [swait[0].task];
        swait := swait[1..];
      } else {
        msg, released := [], [];
      }
    }

    /** A reception takes the message of a blocked sender directly, and that of the next one fits. */
    ghost predicate LeavesBehind()
      reads this
    {
      smbfcnt == 0 && |swait| >= 2 && Alloc(|swait[1].msg|) <= fmbfsz
    }

    /** With an empty buffer, blocked senders have messages that are too large for it. */
    lemma EmptyFits(m: seq<byte>)
      requires Legal(m)
      ensures Alloc(1) <= Alloc(|m|) <= Alloc(maxmsz)
      ensures Used([]) == 0
    {
    }

    lemma CountIs()
      requires RingOk()
      ensures smbfcnt == |msgs|
    {
    }

    /** rcv_mbf, prcv_mbf and trcv_mbf, for task t. An empty message without an error means that the
        task is blocked. */
    method RcvMbf(t: TaskId, raster: bool, tmo: Tmo) returns (ercd: Option<Error>, msg: seq<byte>, released: seq<TaskId>)
      requires Inv()
      modifies this, mbuffer
      ensures Inv()
      ensures ercd == if raster then Some(E_RASTER) else if old(Pending()) != [] then Some(E_OK)
                      else if tmo.Poll? then Some(E_TMOUT) else None
      ensures if ercd == Some(E_OK) then msg == old(Pending())[0] && Pending() == old(Pending())[1..]
              else msg == [] && Pending() == old(Pending())
      ensures |released| <= |old(swait)| && swait == old(swait)[|released|..]
      ensures forall i :: 0 <= i < |released| ==> released[i] == old(swait)[i].task
      ensures rwait == if ercd == None then old(rwait) + [t] else old(rwait)
      ensures ercd != Some(E_OK) ==> released == []
      ensures ercd == Some(E_OK) && old(smbfcnt) > 0 ==> FirstBlocked()
      ensures ercd == Some(E_OK) && old(smbfcnt) == 0 ==> |released| == 1 && fmbfsz == old(fmbfsz)
      ensures old(FirstBlocked()) ==> (FirstBlocked() <==> !(ercd == Some(E_OK) && old(LeavesBehind())))
    {
      hide RingOk, Alloc;
      CountIs();
      msg, released := [], [];
      if raster {
        ercd := Some(E_RASTER);
      } else {
        msg, released := ReceiveMessage();
        if |msg| > 0 {
          ercd := Some(E_OK);
        } else if tmo.Poll? {
          ercd := Some(E_TMOUT);
        } else {
          rwait := rwait + [t];
          ercd := None;
        }
      }
    }

    /** The i-th blocked sender stops waiting: messagebuf_dequeue_wobj after the sender has left the
        queue. Only its message is withdrawn. */
    method SenderLeaves(i: nat) returns (released: seq<TaskId>)
      requires Inv() && i < |swait|
      modifies this`fmbfsz, this`tail, this`smbfcnt, this`msgs, this`swait, mbuffer
      ensures Inv() && FirstBlocked()
      ensures Pending() == old(Pending())[..|old(msgs)| + i] + old(Pending())[|old(msgs)| + i + 1..]
      ensures var s := old(swait)[..i] + old(swait)[i + 1..];
              && |released| <= |s| && swait == s[|released|..]
              && forall k :: 0 <= k < |released| ==> released[k] == s[k].task
      ensures old(FirstBlocked()) && i > 0 ==> released == [] && msgs == old(msgs)
    {
      hide RingOk, Alloc, Messages;
      PendingWithout(msgs, swait, i);
      WithoutSender(swait, i);
      swait := swait[..i] + swait[i + 1..];
      released := Signal();
    }

    /** The i-th blocked receiver stops waiting. */
    method ReceiverLeaves(i: nat)
      requires Inv() && i < |rwait|
      modifies this`rwait
      ensures Inv() && rwait == old(rwait)[..i] + old(rwait)[i + 1..]
    {
      rwait := rwait[..i] + rwait[i + 1..];
    }

    /** ini_mbf */
    method IniMbf() returns (released: seq<TaskId>)
      requires Inv()
      modifies this`fmbfsz, this`head, this`tail, this`smbfcnt, this`msgs, this`swait, this`rwait
      ensures Inv() && Pending() == [] && rwait == [] && fmbfsz == mbfsz
      ensures released == Tasks(old(swait)) + old(rwait)
    {
      released := Tasks(swait) + rwait;
      swait, rwait := [], [];
      fmbfsz, head, tail, smbfcnt := mbfsz, 0, 0, 0;
      msgs := [];
    }
  }

  function Tasks(s: seq<Sender>): (r: seq<TaskId>)
    ensures |r| == |s| && forall k :: 0 <= k < |s| ==> r[k] == s[k].task
  {
    if s == [] then [] else [s[0].task] + Tasks(s[1..])
  }

  lemma {:induction false} MessagesWithout(s: seq<Sender>, i: nat)
    requires i < |s|
    ensures Messages(s[..i] + s[i + 1..]) == Messages(s)[..i] + Messages(s)[i + 1..]
  {
    hide Messages;
    var before, after := s[..i], s[i + 1..];
    assert s == before + ([s[i]] + after);
    MessagesConcat(before, after);
    MessagesConcat(before, [s[i]] + after);
    MessagesConcat([s[i]], after);
    MiddleOut(Messages(before), Messages([s[i]]), Messages(after));
  }

  lemma MiddleOut<T>(a: seq<T>, m: seq<T>, c: seq<T>)
    requires |m| == 1
    ensures var r := a + (m + c); a + c == r[..|a|] + r[|a| + 1..]
  {
    assert (a + (m + c))[..|a|] == a && (a + (m + c))[|a| + 1..] == c;
  }

  lemma PendingWithout(msgs: seq<seq<byte>>, s: seq<Sender>, i: nat)
    requires i < |s|
    ensures var p := msgs + Messages(s);
            msgs + Messages(s[..i] + s[i + 1..]) == p[..|msgs| + i] + p[|msgs| + i + 1..]
  {
    MessagesWithout(s, i);
    ConcatWithout(msgs, Messages(s), i);
  }

  lemma ConcatWithout<T>(a: seq<T>, b: seq<T>, i: nat)
    requires i < |b|
    ensures a + (b[..i] + b[i + 1..]) == (a + b)[..|a| + i] + (a + b)[|a| + i + 1..]
  {
  }

  lemma WithoutSender(s: seq<Sender>, i: nat)
    requires i < |s|
    ensures forall x :: x in s[..i] + s[i + 1..] ==> x in s
    ensures i > 0 ==> (s[..i] + s[i + 1..])[0] == s[0]
  {
  }

  /** If some legal messages fit an empty buffer and some do not, a sender may stay blocked although its
      message fits: after the only stored or blocked message has been received. */
  method LeftBehind(maxmsz: nat, mbfsz: nat) returns (b: Buffer)
    requires 0 < maxmsz <= UINT_RANGE - 8 && mbfsz % WORD == 0
    requires Alloc(1) <= mbfsz < Alloc(maxmsz)
    ensures fresh(b) && b.maxmsz == maxmsz && b.mbfsz == mbfsz && b.Inv()
    ensures |b.swait| == 1 && Alloc(|b.swait[0].msg|) <= b.fmbfsz && !b.FirstBlocked()
  {
    hide Alloc, Buffer.RingOk;
    b := new Buffer(maxmsz, mbfsz);
    var large: seq<byte>, small: seq<byte> := seq(maxmsz, _ => 0), [0];
    var e, r := b.SndMbf(1, false, large, Forever);
    e, r := b.SndMbf(2, false, small, Forever);
    var m, s;
    e, m, s := b.RcvMbf(3, false, Poll);
  }
}
