/** The priority bitmap of hrp3_wo_tecs/kernel/task.c: one bit for each of the 16 priorities, and a
    table-driven search for the lowest bit that is set. */
module Primap {

  function PrimapBit(p: nat): bv16
    requires p < 16
  {
    1 << p
  }

  predicate Has(m: bv16, p: nat)
    requires p < 16
  {
    m & PrimapBit(p) != 0
  }

  lemma DistinctBits(p: nat, q: nat)
    requires p < 16 && q < 16 && p != q
    ensures PrimapBit(p) & PrimapBit(q) == 0
  {
    BitValue(p);
    BitValue(q);
  }

  /** The masks, one by one. */
  function Value(p: nat): bv16
    requires p < 16
  {
    if p == 0 then 1 else if p == 1 then 2 else if p == 2 then 4 else if p == 3 then 8
    else if p == 4 then 16 else if p == 5 then 32 else if p == 6 then 64 else if p == 7 then 128
    else if p == 8 then 256 else if p == 9 then 512 else if p == 10 then 1024 else if p == 11 then 2048
    else if p == 12 then 4096 else if p == 13 then 8192 else if p == 14 then 16384 else 32768
  }

  lemma BitValue(p: nat)
    requires p < 16
    ensures PrimapBit(p) == Value(p)
  {
    if p == 0 {} else if p == 1 {} else if p == 2 {} else if p == 3 {}
    else if p == 4 {} else if p == 5 {} else if p == 6 {} else if p == 7 {}
    else if p == 8 {} else if p == 9 {} else if p == 10 {} else if p == 11 {}
    else if p == 12 {} else if p == 13 {} else if p == 14 {} else {}
  }

  lemma OrAnd(m: bv16, a: bv16, b: bv16)
    ensures (m | a) & b == (m & b) | (a & b)
  {
  }

  lemma SetBit(m: bv16, p: nat, q: nat)
    requires p < 16 && q < 16
    ensures Has(m | PrimapBit(p), q) <==> p == q || Has(m, q)
  {
    OrAnd(m, PrimapBit(p), PrimapBit(q));
    if p == q {
      BitValue(p);
      OrNonzero(m & PrimapBit(q), PrimapBit(q));
    } else {
      DistinctBits(p, q);
      OrZero(m & PrimapBit(q));
    }
  }

  lemma OrZero(x: bv16)
    ensures x | 0 == x
  {
  }

  lemma OrNonzero(x: bv16, y: bv16)
    requires y != 0
    ensures x | (y & y) != 0
  {
  }

  lemma ClearBit(m: bv16, p: nat, q: nat)
    requires p < 16 && q < 16
    ensures Has(m & !PrimapBit(p), q) <==> p != q && Has(m, q)
  {
    hide Has, Masked, PrimapBit, Value;
    BitValue(p);
    HasMasked(m & !Value(p), q);
    HasMasked(m, q);
    ClearMask(m, p, q);
  }

  function Masked(m: bv16, p: nat): bv16
    requires p < 16
  {
    m & Value(p)
  }

  lemma HasMasked(m: bv16, p: nat)
    requires p < 16
    ensures Has(m, p) <==> Masked(m, p) != 0
  {
    BitValue(p);
  }

  lemma ClearMask(m: bv16, p: nat, q: nat)
    requires p < 16 && q < 16
    ensures Masked(m & !Value(p), q) == if p == q then 0 else Masked(m, q)
  {
  }

  const SearchTable: seq<nat> := [0, 1, 0, 2, 0, 1, 0, 3, 0, 1, 0, 2, 0, 1, 0]

  /** bitmap_search */
  method BitmapSearch(m: bv16) returns (n: nat)
    requires m != 0
    ensures n < 16 && Has(m, n) && forall q :: 0 <= q < n ==> !Has(m, q)
  {
    var bitmap := m;
    n := 0;
    if bitmap & 0x00ff == 0 {
      bitmap := bitmap >> 8;
      n := n + 8;
    }
    if bitmap & 0x0f == 0 {
      bitmap := bitmap >> 4;
      n := n + 4;
    }
    var nib := bitmap & 0x0f;
    n := n + SearchTable[(nib as nat) - 1];
  }

  lemma NoBits(m: bv16)
    requires forall p: nat :: p < 16 ==> !Has(m, p)
    ensures m == 0
  {
    var p := 0;
    while p < 16
      invariant p <= 16
      invariant forall q: nat :: q < p ==> m & Value(q) == 0
    {
      assert !Has(m, p);
      BitValue(p);
      p := p + 1;
    }
    AllMasks(m);
  }

  lemma NoBit(p: nat)
    requires p < 16
    ensures !Has(0, p)
  {
    assert 0 & PrimapBit(p) == 0;
  }

  lemma AllMasks(m: bv16)
    requires forall q: nat :: q < 16 ==> m & Value(q) == 0
    ensures m == 0
  {
    assert m & Value(0) == 0 && m & Value(1) == 0 && m & Value(2) == 0 && m & Value(3) == 0;
    assert m & Value(4) == 0 && m & Value(5) == 0 && m & Value(6) == 0 && m & Value(7) == 0;
    assert m & Value(8) == 0 && m & Value(9) == 0 && m & Value(10) == 0 && m & Value(11) == 0;
    assert m & Value(12) == 0 && m & Value(13) == 0 && m & Value(14) == 0 && m & Value(15) == 0;
  }
}
