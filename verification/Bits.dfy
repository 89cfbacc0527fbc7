/** Patterns of 32 bits, and what their conjunctions mean bit by bit. */
module Bits {
  type Pattern = bv32

  /** Bit i of a pattern. */
  predicate Bit(p: Pattern, i: nat)
    requires i < 32
  {
    Has(p, Mask(i))
  }

  predicate Has(p: Pattern, m: Pattern) {
    p & m != 0
  }

  function Mask(i: nat): Pattern
    requires i < 32
  {
    1 << i
  }

  predicate OneBit(m: Pattern) {
    m != 0 && m & (m - 1) == 0
  }

  lemma MaskIsOneBit(i: nat)
    requires i < 32
    ensures OneBit(Mask(i))
  {
    if i == 0 {} else if i == 1 {} else if i == 2 {} else if i == 3 {} else
    if i == 4 {} else if i == 5 {} else if i == 6 {} else if i == 7 {} else
    if i == 8 {} else if i == 9 {} else if i == 10 {} else if i == 11 {} else
    if i == 12 {} else if i == 13 {} else if i == 14 {} else if i == 15 {} else
    if i == 16 {} else if i == 17 {} else if i == 18 {} else if i == 19 {} else
    if i == 20 {} else if i == 21 {} else if i == 22 {} else if i == 23 {} else
    if i == 24 {} else if i == 25 {} else if i == 26 {} else if i == 27 {} else
    if i == 28 {} else if i == 29 {} else if i == 30 {} else {}
  }

  lemma IndexOf(m: Pattern) returns (i: nat)
    requires OneBit(m)
    ensures i < 32 && Mask(i) == m
  {
    hide OneBit, Mask;
    if m < 0x10000 {
      i := LowIndexOf(m);
    } else {
      i := HighIndexOf(m);
    }
  }

  lemma LowIndexOf(m: Pattern) returns (i: nat)
    requires OneBit(m) && m < 0x10000
    ensures i < 32 && Mask(i) == m
  {
    if m == 0x1 { i := 0; } else if m == 0x2 { i := 1; } else if m == 0x4 { i := 2; } else if m == 0x8 { i := 3; } else
    if m == 0x10 { i := 4; } else if m == 0x20 { i := 5; } else if m == 0x40 { i := 6; } else if m == 0x80 { i := 7; } else
    if m == 0x100 { i := 8; } else if m == 0x200 { i := 9; } else if m == 0x400 { i := 10; } else if m == 0x800 { i := 11; } else
    if m == 0x1000 { i := 12; } else if m == 0x2000 { i := 13; } else if m == 0x4000 { i := 14; } else { i := 15; }
  }

  lemma HighIndexOf(m: Pattern) returns (i: nat)
    requires OneBit(m) && m >= 0x10000
    ensures i < 32 && Mask(i) == m
  {
    if m == 0x10000 { i := 16; } else if m == 0x20000 { i := 17; } else if m == 0x40000 { i := 18; } else if m == 0x80000 { i := 19; } else
    if m == 0x100000 { i := 20; } else if m == 0x200000 { i := 21; } else if m == 0x400000 { i := 22; } else if m == 0x800000 { i := 23; } else
    if m == 0x1000000 { i := 24; } else if m == 0x2000000 { i := 25; } else if m == 0x4000000 { i := 26; } else if m == 0x8000000 { i := 27; } else
    if m == 0x10000000 { i := 28; } else if m == 0x20000000 { i := 29; } else if m == 0x40000000 { i := 30; } else { i := 31; }
  }

  /** Every pattern but the empty one has a bit. */
  lemma SomeBit(p: Pattern) returns (m: Pattern)
    requires p != 0
    ensures OneBit(m) && Has(p, m)
  {
    m := p & (0 - p);
  }

  lemma EmptyHasNone(m: Pattern)
    ensures !Has(0, m)
  {
  }

  /** A pattern has a bit or does not have it. */
  lemma BitOrNot(p: Pattern, m: Pattern)
    requires OneBit(m)
    ensures p & m == 0 || p & m == m
  {
  }

  lemma BitOfBoth(p: Pattern, w: Pattern, m: Pattern)
    requires OneBit(m)
    ensures Has(p & w, m) <==> Has(p, m) && Has(w, m)
  {
    hide OneBit, Has;
    BitOrNot(w, m);
    HasTwo(p, w, m);
    HasMasked(w, m);
    NoneHasEmpty(p);
    OneBitIsNotEmpty(m);
  }

  lemma OneBitIsNotEmpty(m: Pattern)
    requires OneBit(m)
    ensures m != 0
  {
  }

  lemma HasTwo(p: Pattern, w: Pattern, m: Pattern)
    ensures Has(p & w, m) <==> Has(p, w & m)
  {
  }

  lemma HasMasked(w: Pattern, m: Pattern)
    ensures Has(w, m) <==> w & m != 0
  {
  }

  lemma NoneHasEmpty(p: Pattern)
    ensures !Has(p, 0)
  {
  }

  /** Patterns that differ differ in a bit. */
  lemma SomeDifference(p: Pattern, w: Pattern) returns (m: Pattern)
    requires p != w
    ensures OneBit(m) && (Has(p, m) <==> !Has(w, m))
  {
    hide OneBit, Has;
    Differ(p, w);
    m := SomeBit(p ^ w);
    BitOrNot(p, m);
    BitOrNot(w, m);
    HasMasked(p, m);
    HasMasked(w, m);
    OneBitIsNotEmpty(m);
    if p & m == w & m {
      SameMasked(p, w, m);
    }
  }

  lemma Differ(p: Pattern, w: Pattern)
    requires p != w
    ensures p ^ w != 0
  {
  }

  lemma SameMasked(p: Pattern, w: Pattern, m: Pattern)
    requires p & m == w & m
    ensures !Has(p ^ w, m)
  {
  }

  /** Pattern p has some bit of w, or all of them, as C code tests it. */
  predicate AnyOf(p: Pattern, w: Pattern) {
    p & w != 0
  }

  predicate AllOf(p: Pattern, w: Pattern) {
    p & w == w
  }

  /** That is what the tests mean. */
  lemma AnyBit(p: Pattern, w: Pattern)
    ensures AnyOf(p, w) <==> exists i: nat :: i < 32 && Bit(p, i) && Bit(w, i)
  {
    hide OneBit, Mask, Has;
    if p & w != 0 {
      var m := SomeBit(p & w);
      BitOfBoth(p, w, m);
      var i := IndexOf(m);
      assert Bit(p, i) && Bit(w, i);
    } else if i: nat :| i < 32 && Bit(p, i) && Bit(w, i) {
      MaskIsOneBit(i);
      BitOfBoth(p, w, Mask(i));
      EmptyHasNone(Mask(i));
    }
  }

  lemma AllBits(p: Pattern, w: Pattern)
    ensures AllOf(p, w) <==> forall i: nat :: i < 32 && Bit(w, i) ==> Bit(p, i)
  {
    hide OneBit, Mask, Has;
    if p & w != w {
      var m := SomeDifference(p & w, w);
      BitOfBoth(p, w, m);
      var i := IndexOf(m);
      assert Bit(w, i) && !Bit(p, i);
    } else if i: nat :| i < 32 && Bit(w, i) && !Bit(p, i) {
      MaskIsOneBit(i);
      BitOfBoth(p, w, Mask(i));
    }
  }
}
