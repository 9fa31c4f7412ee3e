/** Single bits of a byte. */
module Bits {

  function Bit(x: bv8, k: nat): bool
    requires k < 8
  {
    x & (1 << k) != 0
  }

  lemma SetBit(x: bv8, on: bool, j: nat, k: nat)
    requires j < 8 && k < 8
    ensures var bit: bv8 := if on then 1 else 0; Bit(x | (bit << j), k) == (Bit(x, k) || (on && j == k))
  {
    OneShifted(j);
    OneShifted(k);
    if on {
      SetMask(x, (1 as bv8) << j, (1 as bv8) << k);
    } else {
      assert (0 as bv8) << j == 0;
    }
  }

  lemma OneShifted(k: nat)
    requires k < 8
    ensures var m := (1 as bv8) << k;
            m == (if k == 0 then 0x01 else if k == 1 then 0x02 else if k == 2 then 0x04 else if k == 3 then 0x08
                  else if k == 4 then 0x10 else if k == 5 then 0x20 else if k == 6 then 0x40 else 0x80)
  {
  }

  ghost predicate IsMask(m: bv8) {
    m == 0x01 || m == 0x02 || m == 0x04 || m == 0x08 || m == 0x10 || m == 0x20 || m == 0x40 || m == 0x80
  }

  lemma SetMask(x: bv8, m: bv8, q: bv8)
    requires IsMask(m) && IsMask(q)
    ensures ((x | m) & q != 0) == (x & q != 0 || m == q)
  {
  }

  lemma ClearBit(x: bv8, j: nat, k: nat)
    requires j < 8 && k < 8
    ensures Bit(x & !(1 << j), k) == (Bit(x, k) && j != k)
  {
    OneShifted(j);
    OneShifted(k);
    ClearMask(x, (1 as bv8) << j, (1 as bv8) << k);
  }

  lemma ClearMask(x: bv8, m: bv8, q: bv8)
    requires IsMask(m) && IsMask(q)
    ensures ((x & !m) & q != 0) == (x & q != 0 && m != q)
  {
  }

  lemma AllSet(k: nat)
    requires k < 8
    ensures Bit(0xFF, k)
  {
  }
}
