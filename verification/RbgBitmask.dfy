/** The resource-block-group bitmask of the downlink grant, and the word reversal it is
    built with. */
module RbgBitmask {

  /** Bit i of a word. */
  predicate Bit(x: bv32, i: bv6)
    requires i < 32
  {
    (x >> i) & 1 == 1
  }

  /** The five stages: neighbours change places in ones, twos, fours, eights and sixteens. */
  method Reverse(word: bv32) returns (x: bv32)
    ensures forall i: bv6 :: i < 32 ==> Bit(x, i) == Bit(word, 31 - i)
  {
    x := ((word & 0xaaaaaaaa) >> 1) | ((word & 0x55555555) << 1);
    x := ((x & 0xcccccccc) >> 2) | ((x & 0x33333333) << 2);
    x := ((x & 0xf0f0f0f0) >> 4) | ((x & 0x0f0f0f0f) << 4);
    x := ((x & 0xff00ff00) >> 8) | ((x & 0x00ff00ff) << 8);
    x := (x >> 16) | (x << 16);
  }

  /** A word that is not zero has a bit that is set. */
  lemma SetBit(d: bv32) returns (i: bv6)
    requires d != 0
    ensures i < 32 && Bit(d, i)
  {
    i := 0;
    while i < 32 && !Bit(d, i)
      invariant i <= 32 && d << (32 - i) == 0
      decreases 32 - i
    {
      i := i + 1;
    }
  }

  lemma DifferingBit(x: bv32, y: bv32) returns (i: bv6)
    requires x != y
    ensures i < 32 && Bit(x, i) != Bit(y, i)
  {
    i := SetBit(x ^ y);
  }

  /** Words with the same bits are the same. */
  lemma BitsDecide(x: bv32, y: bv32)
    requires forall i: bv6 :: i < 32 ==> Bit(x, i) == Bit(y, i)
    ensures x == y
  {
    if x != y {
      var i := DifferingBit(x, y);
    }
  }

  /** Reversing twice gives the word back. */
  method ReverseTwice(word: bv32) returns (x: bv32)
    ensures x == word
  {
    var once := Reverse(word);
    x := Reverse(once);
    forall i: bv6 | i < 32
      ensures Bit(x, i) == Bit(word, i)
    {
      assert Bit(x, i) == Bit(once, 31 - i);
      assert Bit(once, 31 - i) == Bit(word, i);
    }
    BitsDecide(x, word);
  }

  // ----- the mask -----

  /** Resource blocks per group, TS 36.213 table 7.1.6.1-1. */
  function GroupSize(nofPrb: nat): nat {
    if nofPrb <= 10 then 1
    else if nofPrb <= 26 then 2
    else if nofPrb <= 63 then 3
    else 4
  }

  /** How many groups cover the cell; the last may be short. */
  function Groups(nofPrb: nat): (nb: nat)
    ensures (nb as int - 1) * GroupSize(nofPrb) < nofPrb || nofPrb == 0
    ensures nofPrb <= nb * GroupSize(nofPrb)
  {
    (nofPrb + GroupSize(nofPrb) - 1) / GroupSize(nofPrb)
  }

  /** The least number of groups of 1, 2, 3 or 4 blocks, by the bandwidth of the cell. */
  lemma GroupsByBandwidth(nofPrb: nat)
    ensures var nb := Groups(nofPrb);
            && (nofPrb <= 10 ==> nb == nofPrb)
            && (10 < nofPrb <= 26 ==> 2 * nb - 1 <= nofPrb <= 2 * nb)
            && (26 < nofPrb <= 63 ==> 3 * nb - 2 <= nofPrb <= 3 * nb)
            && (63 < nofPrb ==> 4 * nb - 3 <= nofPrb <= 4 * nb)
  {
  }

  predicate InWindow(group: int, orig: int, num: int) { orig <= group < orig + num }

  lemma SetOne(mask: bv32, i: bv6, k: bv6)
    requires i < 32 && k < 32
    ensures Bit(mask | (1 << i), k) == (k == i || Bit(mask, k))
  {
  }

  lemma ShiftDown(r: bv32, nb: bv6, k: bv6)
    requires 1 <= nb <= 32 && k < 32
    ensures Bit(r >> (32 - nb), k) == (k < nb && Bit(r, k + (32 - nb)))
  {
  }

  /** The mask before reversal: bit i for group i. */
  ghost predicate Marks(mask: bv32, n: bv6, orig: int, num: int) {
    forall k: bv6 :: k < 32 ==> Bit(mask, k) == (k < n && InWindow(k as int, orig, num))
  }

  lemma MarkNext(mask: bv32, i: bv6, orig: int, num: int)
    requires i < 32 && Marks(mask, i, orig, num)
    ensures Marks(if InWindow(i as int, orig, num) then mask | (1 << i) else mask, i + 1, orig, num)
  {
    hide Bit, InWindow;
    var next := if InWindow(i as int, orig, num) then mask | (1 << i) else mask;
    forall k: bv6 | k < 32
      ensures Bit(next, k) == (k < i + 1 && InWindow(k as int, orig, num))
    {
      SetOne(mask, i, k);
      assert Bit(mask, k) == (k < i && InWindow(k as int, orig, num));
      assert k < i + 1 <==> k < i || k == i;
    }
  }

  lemma NoMarks(orig: int, num: int)
    ensures Marks(0, 0, orig, num)
  {
  }

  /** Reversing and shifting down puts group i at bit nb-1-i. */
  lemma Placed(mask: bv32, r: bv32, low: bv32, nb: bv6, orig: int, num: int)
    requires 1 <= nb <= 32 && Marks(mask, nb, orig, num) && low == r >> (32 - nb)
    requires forall i: bv6 :: i < 32 ==> Bit(r, i) == Bit(mask, 31 - i)
    ensures forall k: bv6 :: k < 32 ==> Bit(low, k) == (k < nb && orig <= (nb - 1 - k) as int < orig + num)
  {
    hide Bit;
    forall k: bv6 | k < 32
      ensures Bit(low, k) == (k < nb && InWindow((nb - 1 - k) as int, orig, num))
    {
      ShiftDown(r, nb, k);
      if k < nb {
        assert 31 - (k + (32 - nb)) == nb - 1 - k;
        assert Bit(r, k + (32 - nb)) == Bit(mask, nb - 1 - k);
      }
    }
  }

  /** Bit nb-1-i is set exactly when group i is in the window: group 0 is the most
      significant of the nb bits, and nothing is set above them. */
  method PrbSetToBitmask(nofPrb: nat, orig: int, num: int) returns (mask: bv32)
    requires 1 <= Groups(nofPrb) <= 32
    ensures var nb := Groups(nofPrb) as bv6;
      forall i: bv6 :: i < 32 ==> Bit(mask, i) == (i < nb && orig <= (nb - 1 - i) as int < orig + num)
  {
    hide Bit;
    var nb := Groups(nofPrb) as bv6;
    mask := 0;
    NoMarks(orig, num);
    var i: bv6 := 0;
    while i < nb
      invariant i <= nb <= 32 && Marks(mask, i, orig, num)
      decreases nb - i
    {
      MarkNext(mask, i, orig, num);
      if i as int >= orig && (i as int) < orig + num {
        mask := mask | (1 << i);
      }
      i := i + 1;
    }
    var r := Reverse(mask);
    ghost var marks := mask;
    mask := r >> (32 - nb);
    Placed(marks, r, mask, nb, orig, num);
  }
}
