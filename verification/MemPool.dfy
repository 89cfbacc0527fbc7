/** Fixed-size memory pools of hrp3_wo_tecs/kernel/mempfix.c. */
module MemPool {
  import opened Common
  import WaitQueue

  const INDEX_NULL: nat := 0xFFFF_FFFF
  const INDEX_ALLOC: nat := 0xFFFF_FFFE

  // ---------- The block administration as a value ----------

  /** The marks of all blocks, each the next free block or INDEX_ALLOC; the first free block; the first
      block that was never used; the number of free blocks. */
  datatype Pool = Pool(next: seq<nat>, freelist: nat, unused: nat, fblkcnt: nat)

  function Initial(next: seq<nat>): Pool {
    Pool(next, INDEX_NULL, 0, |next|)
  }

  /** The block that is taken next. */
  function NextBlock(p: Pool): nat {
    if p.freelist != INDEX_NULL then p.freelist else p.unused
  }

  function Get(p: Pool): Pool
    requires NextBlock(p) < |p.next| && p.fblkcnt > 0
  {
    var b := NextBlock(p);
    Pool(p.next[b := INDEX_ALLOC],
         if p.freelist != INDEX_NULL then p.next[b] else INDEX_NULL,
         if p.freelist != INDEX_NULL then p.unused else p.unused + 1,
         p.fblkcnt - 1)
  }

  function Release(p: Pool, b: nat): Pool
    requires b < |p.next|
  {
    Pool(p.next[b := p.freelist], b, p.unused, p.fblkcnt + 1)
  }

  /** What rel_mpf goes by. */
  predicate Allocated(p: Pool, b: nat) {
    b < p.unused && b < |p.next| && p.next[b] == INDEX_ALLOC
  }

  // ---------- Consistency ----------

  function Pointer(l: seq<nat>, i: nat): nat {
    if i < |l| then l[i] else INDEX_NULL
  }

  ghost predicate Linked(next: seq<nat>, l: seq<nat>, i: nat)
    requires i < |l|
  {
    l[i] < |next| && next[l[i]] == Pointer(l, i + 1)
  }

  /** The list l of free blocks, the allocated blocks and those never used make up the pool. */
  ghost predicate Consistent(p: Pool, l: seq<nat>) {
    && |p.next| < INDEX_ALLOC && p.unused <= |p.next|
    && p.freelist == Pointer(l, 0) && (forall i: nat :: i < |l| ==> Linked(p.next, l, i))
    && Distinct(l)
    && (forall b: nat :: b in l <==> b < p.unused && !Allocated(p, b))
    && p.fblkcnt == |l| + |p.next| - p.unused
  }

  ghost predicate PoolOk(p: Pool) {
    exists l :: Consistent(p, l)
  }

  /** A fresh or initialised pool is consistent, whatever its marks say, and no block of it counts as
      allocated. */
  lemma InitialOk(next: seq<nat>)
    requires |next| < INDEX_ALLOC
    ensures PoolOk(Initial(next)) && forall b: nat :: !Allocated(Initial(next), b)
  {
    assert Consistent(Initial(next), []);
  }

  /** Taking a block gives one that was not allocated, and changes the state of no other. */
  lemma GetOk(p: Pool)
    requires PoolOk(p) && p.fblkcnt > 0
    ensures NextBlock(p) < |p.next| && !Allocated(p, NextBlock(p)) && PoolOk(Get(p))
    ensures forall b: nat :: Allocated(Get(p), b) <==> Allocated(p, b) || b == NextBlock(p)
  {
    var l: seq<nat> :| Consistent(p, l);
    if l == [] {
      GetUnused(p);
    } else {
      GetListed(p, l);
    }
  }

  lemma GetUnused(p: Pool)
    requires Consistent(p, []) && p.fblkcnt > 0
    ensures NextBlock(p) == p.unused < |p.next| && Consistent(Get(p), [])
    ensures forall b: nat :: Allocated(Get(p), b) <==> Allocated(p, b) || b == NextBlock(p)
  {
    forall b: nat | b < p.unused
      ensures Allocated(p, b)
    {
      assert b !in [];
    }
  }

  lemma GetListed(p: Pool, l: seq<nat>)
    requires Consistent(p, l) && l != [] && p.fblkcnt > 0
    ensures NextBlock(p) == l[0] < |p.next| && !Allocated(p, NextBlock(p)) && Consistent(Get(p), l[1..])
    ensures forall b: nat :: Allocated(Get(p), b) <==> Allocated(p, b) || b == NextBlock(p)
  {
    hide Pointer;
    assert Pointer(l, 0) == l[0] by {
      PointerIs(l, 0);
    }
    assert Linked(p.next, l, 0) && l[0] in l;
    var q, m := Get(p), l[1..];
    PointerTail(l, 0);
    forall i: nat | i < |m|
      ensures Linked(q.next, m, i)
    {
      assert Linked(p.next, l, i + 1) && m[i] == l[i + 1];
      PointerTail(l, i + 1);
    }
    assert l == [l[0]] + m;
    forall b: nat
      ensures b in l <==> b == l[0] || b in m
    {
    }
  }

  lemma PointerIs(l: seq<nat>, i: nat)
    ensures Pointer(l, i) == if i < |l| then l[i] else INDEX_NULL
  {
  }

  lemma PointerTail(l: seq<nat>, i: nat)
    requires l != []
    ensures Pointer(l[1..], i) == Pointer(l, i + 1)
  {
  }

  /** Releasing an allocated block frees it and no other. */
  lemma ReleaseOk(p: Pool, b: nat)
    requires PoolOk(p) && Allocated(p, b)
    ensures PoolOk(Release(p, b))
    ensures forall c: nat :: Allocated(Release(p, b), c) <==> Allocated(p, c) && c != b
  {
    hide Pointer;
    var l: seq<nat> :| Consistent(p, l);
    var q, m := Release(p, b), [b] + l;
    assert m[1..] == l;
    PointerIs(m, 0);
    PointerIs(l, 0);
    if l != [] {
      assert l[0] in l;
    }
    forall i: nat | i < |m|
      ensures Linked(q.next, m, i)
    {
      PointerTail(m, i);
      if i > 0 {
        assert Linked(p.next, l, i - 1) && m[i] == l[i - 1] && l[i - 1] in l;
      }
    }
    assert Consistent(q, m);
  }

  /** Releasing a block that is not allocated ruins the pool: no list of free blocks is left that could
      be right. */
  lemma ReleaseOfFree(p: Pool, b: nat)
    requires PoolOk(p) && b < |p.next| && !Allocated(p, b)
    ensures !PoolOk(Release(p, b))
  {
    var l: seq<nat> :| Consistent(p, l);
    forall m: seq<nat>
      ensures !Consistent(Release(p, b), m)
    {
      NoListLeft(p, l, b, m);
    }
  }

  lemma NoListLeft(p: Pool, l: seq<nat>, b: nat, m: seq<nat>)
    requires Consistent(p, l) && b < |p.next| && !Allocated(p, b)
    ensures !Consistent(Release(p, b), m)
  {
    HeadIn(m);
    if b < p.unused {
      var k: nat :| k < |l| && l[k] == b;
      if Consistent(Release(p, b), m) {
        SameChain(p, l, b, m, k, k);
      }
    }
  }

  lemma HeadIn(m: seq<nat>)
    ensures m != [] ==> m[0] in m
  {
  }

  /** The new list of free blocks would have to follow the old one, up to where it comes round. */
  lemma {:induction false} SameChain(p: Pool, l: seq<nat>, b: nat, m: seq<nat>, k: nat, j: nat)
    requires Consistent(p, l) && b < |p.next| && Consistent(Release(p, b), m)
    requires j <= k < |l| && l[k] == b
    ensures j + 1 < |m| && m[0] == b && m[j + 1] == l[j]
  {
    assert m != [] && m[0] == b;
    assert Linked(Release(p, b).next, m, j) || j >= |m|;
    assert l[j] in l;
    if j > 0 {
      SameChain(p, l, b, m, k, j - 1);
      assert Linked(p.next, l, j - 1) && l[j - 1] != l[k];
    }
  }

  /** The exact condition under which rel_mpf keeps the pool consistent. Its checks are made before the
      CPU is locked; the condition must hold afterwards. */
  lemma ReleaseIff(p: Pool, b: nat)
    requires PoolOk(p) && b < |p.next|
    ensures PoolOk(Release(p, b)) <==> Allocated(p, b)
  {
    if Allocated(p, b) {
      ReleaseOk(p, b);
    } else {
      ReleaseOfFree(p, b);
    }
  }

  /** When two tasks release the same block, and both pass the checks before either goes on, the block
      is given out twice. */
  lemma DoubleRelease(p: Pool, b: nat)
    requires PoolOk(p) && Allocated(p, b) && b != INDEX_NULL
    ensures var q := Release(Release(p, b), b);
            NextBlock(q) == b && NextBlock(Get(q)) == b
  {
  }

  // ---------- Who holds the blocks ----------

  /** A block has been given to a task. */
  datatype Grant = Grant(task: TaskId, block: nat)

  /** Some task holds block b. */
  ghost predicate IsHeld(held: multiset<Grant>, b: nat) {
    exists t: TaskId :: Grant(t, b) in held
  }

  /** No block is held twice, by two tasks or by one, and the marked blocks are exactly those held. */
  ghost predicate HeldOk(held: multiset<Grant>, p: Pool) {
    && (forall g :: g in held ==> held[g] == 1)
    && (forall g, h :: g in held && h in held && g.block == h.block ==> g == h)
    && (forall b: nat :: Allocated(p, b) <==> IsHeld(held, b))
  }

  /** A block that was free is given to a task. */
  lemma GrantNew(held: multiset<Grant>, p: Pool, q: Pool, g: Grant)
    requires HeldOk(held, p) && !Allocated(p, g.block)
    requires forall b: nat :: Allocated(q, b) <==> Allocated(p, b) || b == g.block
    ensures HeldOk(held + multiset{g}, q)
  {
    var held' := held + multiset{g};
    assert !IsHeld(held, g.block);
    forall h | h in held
      ensures h.block != g.block
    {
      assert Grant(h.task, h.block) == h;
    }
    HeldAfter(held, held', g);
  }

  /** A block passes from its holder to another task, or to the same one again. */
  lemma GrantPasses(held: multiset<Grant>, p: Pool, g: Grant, h: Grant)
    requires HeldOk(held, p) && g in held && h.block == g.block
    ensures HeldOk(held - multiset{g} + multiset{h}, p)
  {
    HeldWithout(held, g);
    HeldAfter(held - multiset{g}, held - multiset{g} + multiset{h}, h);
    assert IsHeld(held, g.block) by {
      assert Grant(g.task, g.block) == g;
    }
  }

  /** Its holder gives a block up. */
  lemma GrantEnds(held: multiset<Grant>, p: Pool, q: Pool, g: Grant)
    requires HeldOk(held, p) && g in held
    requires forall b: nat :: Allocated(q, b) <==> Allocated(p, b) && b != g.block
    ensures HeldOk(held - multiset{g}, q)
  {
    HeldWithout(held, g);
  }

  lemma HeldAfter(held: multiset<Grant>, held': multiset<Grant>, g: Grant)
    requires held' == held + multiset{g}
    ensures forall b: nat :: IsHeld(held', b) <==> IsHeld(held, b) || b == g.block
  {
    forall b: nat
      ensures IsHeld(held', b) <==> IsHeld(held, b) || b == g.block
    {
      assert Grant(g.task, g.block) in held';
      if IsHeld(held, b) {
        var t: TaskId :| Grant(t, b) in held;
        assert Grant(t, b) in held';
      }
    }
  }

  lemma HeldWithout(held: multiset<Grant>, g: Grant)
    requires g in held && held[g] == 1 && forall h :: h in held && h.block == g.block ==> h == g
    ensures forall b: nat :: IsHeld(held - multiset{g}, b) <==> IsHeld(held, b) && b != g.block
  {
    var held' := held - multiset{g};
    forall b: nat
      ensures IsHeld(held', b) <==> IsHeld(held, b) && b != g.block
    {
      if IsHeld(held, b) && b != g.block {
        var t: TaskId :| Grant(t, b) in held;
        assert Grant(t, b) in held';
      }
    }
  }

  /** A block that another task holds is given to a task: it is held twice. */
  lemma GrantTwice(held: multiset<Grant>, p: Pool, g: Grant, h: Grant)
    requires HeldOk(held, p) && Allocated(p, g.block) && g !in held && h.block == g.block
    ensures !HeldOk(held - multiset{g} + multiset{h}, p)
  {
    assert IsHeld(held, g.block);
    var t: TaskId :| Grant(t, g.block) in held;
    var held' := held - multiset{g} + multiset{h};
    assert Grant(t, g.block) in held' && h in held';
    assert Grant(t, g.block) == h ==> held'[h] == held[h] + 1;
  }

  /** A block that another task holds becomes free. */
  lemma GrantLost(held: multiset<Grant>, p: Pool, q: Pool, g: Grant)
    requires HeldOk(held, p) && Allocated(p, g.block) && g !in held && !Allocated(q, g.block)
    ensures !HeldOk(held - multiset{g}, q)
  {
    assert held - multiset{g} == held;
    assert IsHeld(held, g.block);
  }

  /** The blocks that are not allocated. */
  function FreeBlocks(p: Pool): set<nat> {
    set b: nat | b < |p.next| && !Allocated(p, b)
  }

  /** The counter counts them. */
  lemma CountIsRight(p: Pool)
    requires PoolOk(p)
    ensures |FreeBlocks(p)| == p.fblkcnt
  {
    var l: seq<nat> :| Consistent(p, l);
    var listed := set b: nat | b in l;
    var rest := set b: nat | b < |p.next| && Between(b, p.unused, |p.next|);
    ListSize(l);
    RangeSize(p.unused, |p.next|);
    assert FreeBlocks(p) == listed + rest;
    assert listed !! rest;
  }

  lemma {:induction false} ListSize(l: seq<nat>)
    requires Distinct(l)
    ensures |set b: nat | b in l| == |l|
  {
    if l != [] {
      var m := l[1..];
      ListSize(m);
      assert l == [l[0]] + m;
      assert (set b: nat | b in l) == {l[0]} + (set b: nat | b in m);
    } else {
      assert (set b: nat | b in l) == {};
    }
  }

  predicate Between(b: nat, lo: nat, hi: nat) {
    lo <= b < hi
  }

  lemma {:induction false} RangeSize(lo: nat, hi: nat)
    requires lo <= hi
    ensures |set b: nat | b < hi && Between(b, lo, hi)| == hi - lo
    decreases hi - lo
  {
    if lo < hi {
      var next := lo + 1;
      RangeSize(next, hi);
      assert (set b: nat | b < hi && Between(b, lo, hi)) == {lo} + (set b: nat | b < hi && Between(b, next, hi));
    } else {
      assert (set b: nat | b < hi && Between(b, lo, hi)) == {};
    }
  }

  // ---------- The pool in memory ----------

  class MemoryPool {
    const blkcnt: nat
    const blksz: nat
    /** The address of the first block. */
    const mpf: nat
    const byPriority: bool
    const mpfmb: array<nat>

    var fblkcnt: nat
    var unused: nat
    var freelist: nat
    var wait: seq<WaitQueue.Waiter<()>>
    /** The blocks that have been given to waiting tasks. */
    var got: map<TaskId, nat>
    /** The blocks that tasks have got and not given back. */
    ghost var held: multiset<Grant>

    ghost function View(): Pool
      reads `fblkcnt, `unused, `freelist, mpfmb
    {
      Pool(mpfmb[..], freelist, unused, fblkcnt)
    }

    ghost predicate Inv()
      reads this, mpfmb
    {
      && mpfmb.Length == blkcnt && blksz > 0
      && PoolOk(View())
      && HeldOk(held, View())
      && (wait != [] ==> fblkcnt == 0)
      && (byPriority ==> WaitQueue.ByPriority(wait))
    }

    /** initialize_mempfix; the marks in the pool's administration are arbitrary. */
    constructor (blkcnt: nat, blksz: nat, mpf: nat, byPriority: bool)
      requires 0 < blkcnt < INDEX_ALLOC && 0 < blksz
      ensures Inv() && fresh(mpfmb) && forall b: nat :: !Allocated(View(), b)
      ensures this.blkcnt == blkcnt && this.blksz == blksz && this.mpf == mpf && this.byPriority == byPriority
      ensures wait == [] && got == map[] && held == multiset{} && fblkcnt == blkcnt
    {
      this.blkcnt, this.blksz, this.mpf, this.byPriority := blkcnt, blksz, mpf, byPriority;
      mpfmb := new nat[blkcnt];
      fblkcnt, unused, freelist := blkcnt, 0, INDEX_NULL;
      wait, got, held := [], map[], multiset{};
      new;
      InitialOk(mpfmb[..]);
    }

    lemma HeldOnce(t: TaskId, b: nat)
      requires Inv() && Grant(t, b) in held
      ensures held[Grant(t, b)] == 1
    {
    }

    lemma Facts()
      requires Inv()
      ensures HeldOk(held, View()) && mpfmb.Length == blkcnt
    {
    }

    function Address(b: nat): nat {
      mpf + blksz * b
    }

    /** get_mpf_block */
    method GetMpfBlock() returns (blk: nat)
      requires mpfmb.Length == blkcnt && PoolOk(View()) && fblkcnt > 0
      modifies `fblkcnt, `unused, `freelist, mpfmb
      ensures NextBlock(old(View())) < blkcnt && View() == Get(old(View()))
      ensures blk == Address(NextBlock(old(View()))) == mpf + blksz * NextBlock(old(View()))
    {
      hide PoolOk;
      GetOk(View());
      var blkidx := freelist;
      if freelist != INDEX_NULL {
        freelist := mpfmb[blkidx];
      } else {
        blkidx := unused;
        unused := unused + 1;
      }
      blk := mpf + blksz * blkidx;
      fblkcnt := fblkcnt - 1;
      mpfmb[blkidx] := INDEX_ALLOC;
    }

    /** get_mpf, pget_mpf and tget_mpf, for task t of priority pri. A block that is got was held by
        nobody. */
    method GetMpf(t: TaskId, pri: nat, raster: bool, tmo: Tmo) returns (ercd: Option<Error>, blk: Option<nat>, ghost b: nat)
      requires Inv()
      modifies this, mpfmb
      ensures Inv() && got == old(got)
      ensures ercd == if raster then Some(E_RASTER) else if FreeBlocks(old(View())) != {} then Some(E_OK)
                      else if tmo.Poll? then Some(E_TMOUT) else None
      ensures ercd == Some(E_OK) ==>
        && b < blkcnt && blk == Some(Address(b)) && blk == Some(mpf + blksz * b) && !IsHeld(old(held), b) && held == old(held) + multiset{Grant(t, b)}
        && b in FreeBlocks(old(View())) && FreeBlocks(View()) == FreeBlocks(old(View())) - {b}
      ensures ercd != Some(E_OK) ==> blk == None && View() == old(View()) && held == old(held)
      ensures wait == if ercd == None then WaitQueue.Join(old(wait), WaitQueue.Waiter(t, pri, ()), byPriority) else old(wait)
    {
      hide PoolOk, Get, HeldOk, Allocated, WaitQueue.Join, WaitQueue.ByPriority;
      CountIsRight(View());
      blk, b := None, 0;
      if raster {
        ercd := Some(E_RASTER);
      } else if fblkcnt > 0 {
        GetOk(View());
        b := NextBlock(View());
        FreeAndNotHeld(held, View(), b);
        GrantNew(held, View(), Get(View()), Grant(t, b));
        var a := GetMpfBlock();
        held := held + multiset{Grant(t, b)};
        FreesOneLess(old(View()), b);
        blk := Some(a);
        ercd := Some(E_OK);
      } else if tmo.Poll? {
        ercd := Some(E_TMOUT);
      } else {
        if byPriority {
          WaitQueue.JoinKeepsOrder(wait, WaitQueue.Waiter(t, pri, ()));
        }
        wait := WaitQueue.Join(wait, WaitQueue.Waiter(t, pri, ()), byPriority);
        ercd := None;
      }
    }

    /** The checks of rel_mpf. A block passes exactly if it is allocated now. */
    method CheckBlock(blk: nat) returns (blkidx: Option<nat>)
      requires Inv()
      ensures forall b: nat :: blkidx == Some(b) <==> Allocated(View(), b) && blk == Address(b)
      ensures blkidx.Some? ==> IsHeld(held, blkidx.value) && blk == mpf + blksz * blkidx.value
      ensures blkidx == None ==> forall b: nat :: IsHeld(held, b) ==> blk != mpf + blksz * b
    {
      PoolBounds(View());
      if blk < mpf {
        return None;
      }
      var blkoffset := blk - mpf;
      AddressOf(blkoffset);
      if blkoffset % blksz != 0 {
        return None;
      }
      if blkoffset / blksz >= unused {
        return None;
      }
      var b := blkoffset / blksz;
      if mpfmb[b] != INDEX_ALLOC {
        return None;
      }
      blkidx := Some(b);
    }

    lemma AddressOf(offset: nat)
      requires blksz > 0
      ensures forall b: nat :: mpf + offset == Address(b) <==> offset % blksz == 0 && b == offset / blksz
    {
      forall b: nat
        ensures mpf + offset == Address(b) <==> offset % blksz == 0 && b == offset / blksz
      {
        OffsetOf(offset, b);
      }
    }

    lemma OffsetOf(offset: nat, b: nat)
      requires blksz > 0
      ensures offset == blksz * b <==> offset % blksz == 0 && b == offset / blksz
    {
      var q, r := offset / blksz, offset % blksz;
      assert offset == blksz * q + r;
      Multiples(blksz, b, q - 1);
      Multiples(blksz, q + 1, b);
    }

    lemma Multiples(x: nat, a: int, b: int)
      ensures a <= b ==> x * a <= x * b
    {
    }

    /** The part of rel_mpf that is made with the CPU locked, for task t. It has checked block b before,
        but the pool may have changed since. A waiting task gets the block directly. No block is held
        twice afterwards, and the pool is consistent, if and only if t still holds b. */
    method ReleaseBlock(t: TaskId, b: nat) returns (task: Option<TaskId>)
      requires Inv() && b < blkcnt
      modifies `fblkcnt, `freelist, `wait, `got, `held, mpfmb
      ensures Inv() <==> Grant(t, b) in old(held)
      ensures old(wait) != [] ==>
        && task == Some(old(wait)[0].task) && wait == old(wait)[1..] && got == old(got)[old(wait)[0].task := Address(b)]
        && View() == old(View()) && held == old(held) - multiset{Grant(t, b)} + multiset{Grant(old(wait)[0].task, b)}
      ensures old(wait) == [] ==>
        && task == None && wait == [] && got == old(got) && View() == Release(old(View()), b)
        && held == old(held) - multiset{Grant(t, b)}
        && (Allocated(old(View()), b) ==> FreeBlocks(View()) == FreeBlocks(old(View())) + {b})
    {
      hide PoolOk, HeldOk, Allocated, WaitQueue.ByPriority;
      ghost var g := Grant(t, b);
      if wait != [] {
        NoneFree(b);
        var w := HandOn(g, b);
        task := Some(w);
      } else {
        Returned(held, View(), g);
        fblkcnt := fblkcnt + 1;
        mpfmb[b] := freelist;
        freelist := b;
        held := held - multiset{g};
        task := None;
      }
    }

    /** The first waiting task gets the block of g. */
    method HandOn(ghost g: Grant, b: nat) returns (t: TaskId)
      requires Inv() && wait != [] && b == g.block && Allocated(View(), b)
      modifies `wait, `got, `held
      ensures Inv() <==> g in old(held)
      ensures t == old(wait)[0].task && wait == old(wait)[1..] && got == old(got)[t := Address(b)]
      ensures held == old(held) - multiset{g} + multiset{Grant(t, b)}
    {
      hide PoolOk, HeldOk, Allocated, WaitQueue.ByPriority;
      t := wait[0].task;
      HandedOn(held, View(), g, Grant(t, b));
      WaitQueue.HeadLeaves(wait);
      got := got[t := mpf + blksz * b];
      held := held - multiset{g} + multiset{Grant(t, b)};
      wait := wait[1..];
    }

    /** rel_mpf, when nothing comes between its checks and the rest. */
    method RelMpf(t: TaskId, blk: nat) returns (ercd: Error, task: Option<TaskId>, ghost b: nat)
      requires Inv()
      modifies `fblkcnt, `freelist, `wait, `got, `held, mpfmb
      ensures ercd == E_OK || ercd == E_PAR
      ensures ercd == E_PAR ==> Inv() && View() == old(View()) && held == old(held) && forall c: nat :: blk == Address(c) ==> !IsHeld(held, c)
      ensures ercd == E_OK ==> IsHeld(old(held), b) && blk == Address(b) && (Inv() <==> Grant(t, b) in old(held))
      ensures ercd == E_OK && old(wait) != [] ==>
        && task == Some(old(wait)[0].task) && wait == old(wait)[1..] && got == old(got)[old(wait)[0].task := blk] && View() == old(View())
      ensures ercd == E_OK && old(wait) == [] ==>
        && task == None && wait == [] && got == old(got) && held == old(held) - multiset{Grant(t, b)}
        && FreeBlocks(View()) == FreeBlocks(old(View())) + {b}
      ensures ercd == E_PAR ==> wait == old(wait) && got == old(got)
    {
      hide PoolOk, Allocated;
      var idx := CheckBlock(blk);
      b := 0;
      if idx == None {
        return E_PAR, None, 0;
      }
      b := idx.value;
      AllocatedInRange(View(), b);
      task := ReleaseBlock(t, idx.value);
      ercd := E_OK;
    }

    /** The holder of a block leaves it to another task, which the kernel does not see. */
    ghost method PassOn(t: TaskId, u: TaskId, b: nat)
      requires Inv() && Grant(t, b) in held
      modifies `held
      ensures Inv() && held == old(held) - multiset{Grant(t, b)} + multiset{Grant(u, b)}
    {
      hide PoolOk, HeldOk, Allocated;
      GrantPasses(held, View(), Grant(t, b), Grant(u, b));
      held := held - multiset{Grant(t, b)} + multiset{Grant(u, b)};
    }

    /** The i-th waiting task stops waiting. */
    method WaiterLeaves(i: nat)
      requires Inv() && i < |wait|
      modifies `wait
      ensures Inv() && wait == WaitQueue.Leave(old(wait), i)
    {
      hide PoolOk, HeldOk, WaitQueue.ByPriority;
      if byPriority {
        WaitQueue.LeaveKeepsOrder(wait, i);
      }
      wait := wait[..i] + wait[i + 1..];
    }

    /** The i-th waiting task gets another priority. */
    method WaiterChangesPriority(i: nat, pri: nat)
      requires Inv() && i < |wait|
      modifies `wait
      ensures Inv() && wait == WaitQueue.Requeue(old(wait), i, pri, byPriority)
    {
      hide PoolOk, HeldOk, WaitQueue.ByPriority, WaitQueue.Requeue;
      if byPriority {
        WaitQueue.RequeueKeepsOrder(wait, i, pri);
      }
      wait := WaitQueue.Requeue(wait, i, pri, byPriority);
    }

    lemma NoneFree(b: nat)
      requires Inv() && fblkcnt == 0 && b < blkcnt
      ensures Allocated(View(), b)
    {
      CountIsRight(View());
      assert b !in FreeBlocks(View());
    }

    /** ini_mpf: the old marks stay, and count for nothing; all waits end. Nobody holds a block of the
        pool any more. */
    method IniMpf() returns (released: seq<TaskId>)
      requires Inv()
      modifies `fblkcnt, `unused, `freelist, `wait, `held
      ensures Inv() && wait == [] && mpfmb[..] == old(mpfmb[..]) && forall b: nat :: !Allocated(View(), b)
      ensures held == multiset{} && released == WaitQueue.Tasks(old(wait))
    {
      PoolBounds(View());
      InitialOk(mpfmb[..]);
      released := WaitQueue.Tasks(wait);
      wait, held := [], multiset{};
      fblkcnt, unused, freelist := blkcnt, 0, INDEX_NULL;
    }
  }

  lemma FreeAndNotHeld(held: multiset<Grant>, p: Pool, b: nat)
    requires HeldOk(held, p) && !Allocated(p, b)
    ensures !IsHeld(held, b) && (b < |p.next| ==> b in FreeBlocks(p))
  {
  }

  lemma AllocatedInRange(p: Pool, b: nat)
    requires Allocated(p, b)
    ensures b < |p.next|
  {
  }

  /** A held block is handed on: right if and only if the holder does it. */
  lemma HandedOn(held: multiset<Grant>, p: Pool, g: Grant, h: Grant)
    requires HeldOk(held, p) && Allocated(p, g.block) && h.block == g.block
    ensures HeldOk(held - multiset{g} + multiset{h}, p) <==> g in held
  {
    hide HeldOk, Allocated;
    if g in held {
      GrantPasses(held, p, g, h);
    } else {
      GrantTwice(held, p, g, h);
    }
  }

  /** A block is put back into the free list: right if and only if its holder does it. */
  lemma Returned(held: multiset<Grant>, p: Pool, g: Grant)
    requires PoolOk(p) && HeldOk(held, p) && g.block < |p.next|
    ensures PoolOk(Release(p, g.block)) && HeldOk(held - multiset{g}, Release(p, g.block)) <==> g in held
    ensures Allocated(p, g.block) ==> FreeBlocks(Release(p, g.block)) == FreeBlocks(p) + {g.block}
  {
    hide PoolOk, Release, HeldOk, Allocated;
    ReleaseIff(p, g.block);
    if Allocated(p, g.block) {
      ReleaseOk(p, g.block);
      if g in held {
        GrantEnds(held, p, Release(p, g.block), g);
      } else {
        GrantLost(held, p, Release(p, g.block), g);
      }
      FreesOneMore(p, g.block);
    } else {
      HeldAreAllocated(held, p, g);
    }
  }

  lemma HeldAreAllocated(held: multiset<Grant>, p: Pool, g: Grant)
    requires HeldOk(held, p)
    ensures g in held ==> Allocated(p, g.block)
  {
    assert Grant(g.task, g.block) == g;
    assert g in held ==> IsHeld(held, g.block);
  }

  lemma FreesOneMore(p: Pool, b: nat)
    requires PoolOk(p) && Allocated(p, b)
    ensures FreeBlocks(Release(p, b)) == FreeBlocks(p) + {b}
  {
    ReleaseOk(p, b);
  }

  /** Two tasks wait for the only block. */
  method TwoWait() returns (p: MemoryPool)
    ensures fresh(p) && fresh(p.mpfmb) && p.Inv() && p.blkcnt == 1 && p.Address(0) == 1000
    ensures Grant(9, 0) in p.held && p.wait == [WaitQueue.Waiter(1, 0, ()), WaitQueue.Waiter(2, 0, ())]
  {
    hide MemoryPool.Inv, Release, Allocated;
    p := new MemoryPool(1, 100, 1000, false);
    p.Facts();
    assert FreeBlocks(p.View()) == {0};
    var e, a, b := p.GetMpf(9, 0, false, Poll);
    assert FreeBlocks(p.View()) == {};
    e, a, b := p.GetMpf(1, 0, false, Forever);
    e, a, b := p.GetMpf(2, 0, false, Forever);
  }

  /** Its holder releases the block twice, and both calls pass the checks before either goes on: both
      waiting tasks get the block. */
  method GivenToTwo() returns (p: MemoryPool)
    ensures fresh(p) && 1 in p.got && 2 in p.got && p.got[1] == p.got[2] == p.Address(0)
    ensures Grant(1, 0) in p.held && Grant(2, 0) in p.held && !p.Inv()
  {
    hide MemoryPool.Inv, Release, Allocated, HeldOk;
    p := TwoWait();
    p.Facts();
    HeldAreAllocated(p.held, p.View(), Grant(9, 0));
    p.HeldOnce(9, 0);
    var first := p.CheckBlock(1000);
    var second := p.CheckBlock(1000);
    var task := p.ReleaseBlock(9, first.value);
    task := p.ReleaseBlock(9, second.value);
  }

  lemma PoolBounds(p: Pool)
    requires PoolOk(p)
    ensures p.unused <= |p.next| < INDEX_ALLOC
  {
  }

  lemma FreesOneLess(p: Pool, b: nat)
    requires PoolOk(p) && p.fblkcnt > 0 && b == NextBlock(p)
    ensures b < |p.next| && FreeBlocks(Get(p)) == FreeBlocks(p) - {b}
  {
    GetOk(p);
  }
}
