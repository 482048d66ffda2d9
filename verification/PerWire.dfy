/** The bits themselves: what each encoding puts on the wire and what each decoder makes of
    any stream, bit by bit, with every width described by the numbers it has to hold. */
module PerWire {
  import opened BitSeq
  import opened CBitRefs
  import opened Wire
  import opened PerFormat

  /** w bits are enough for n different values, and no fewer are. */
  ghost predicate Least(w: nat, n: nat) { n <= Pow2(w) && (w > 0 ==> Pow2(w - 1) < n) }

  /** The padding in front of a field that starts on an octet boundary. */
  function Gap(pos: nat, aligned: bool): seq<bool> { if aligned then Zeros(PadLen(pos)) else [] }

  lemma {:induction false} LeastIs(w: nat, n: nat)
    requires n >= 1 && Least(w, n)
    ensures CeilLog2(n) == w
  {
    hide Pow2, CeilLog2;
    CeilLog2Is(n, w);
  }

  lemma {:induction false} LeastExists(n: nat) returns (w: nat)
    requires n >= 1
    ensures Least(w, n) && CeilLog2(n) == w
  {
    hide Pow2;
    w := CeilLog2(n);
  }

  /** A signed type holds the numbers from -2^(b-1) up to 2^(b-1) - 1, an unsigned one those
      below 2^b, and a conversion changes a number by a multiple of 2^b. */
  lemma {:induction false} TypeHolds(t: IntType, x: int)
    ensures var half: int := Pow2(t.width.Bits() - 1);
            && t.Lo() == (if t.signed then -half else 0)
            && t.Hi() == (if t.signed then half - 1 else 2 * half - 1)
            && (t.Wrap(x) - x) % (2 * half) == 0
  {
    hide Pow2;
    ModulusIsPow2(t.width);
    Pow2Next(t.width.Bits() - 1);
    match t.width
    case W8 => WrapMod(t, x, 0x100);
    case W16 => WrapMod(t, x, 0x1_0000);
    case W32 => WrapMod(t, x, 0x1_0000_0000);
    case W64 => WrapMod(t, x, 0x1_0000_0000_0000_0000);
  }

  lemma {:induction false} WrapMod(t: IntType, x: int, m: nat)
    requires m == t.width.Modulus() && m in {0x100, 0x1_0000, 0x1_0000_0000, 0x1_0000_0000_0000_0000}
    ensures (t.Wrap(x) - x) % m == 0
  {
  }

  // ----- length determinant, section 10.9 -----

  /** One octet from a zero bit, two from 10, or the fragment header 11; nothing else. */
  lemma {:induction false} LengthOnWire(pos: nat, n: nat, aligned: bool)
    ensures var e := LengthEnc(pos, n, aligned);
            && (e.ok <==> if aligned then n <= 65536 else n < 16384)
            && e.need == |e.bits|
            && (!e.ok ==> e.bits == [])
            && (e.ok ==> e.bits == Gap(pos, aligned) + (
                           if n < 128 then [false] + ToBits(n, 7)
                           else if n < 16384 then [true, false] + ToBits(n, 14)
                           else [true, true] + (ToBits(n / 16384, 6) + ToBits(n % 16384, 16))))
  {
    hide ToBits, Zeros, PadLen, LengthBody;
    LengthOk(pos, n, aligned);
    LengthStrict(pos, n, aligned);
    if LengthEnc(pos, n, aligned).ok {
      LengthBodyOnWire(n);
    }
  }

  lemma {:induction false} LengthBodyOnWire(n: nat)
    requires n <= 65536
    ensures LengthBody(n).bits ==
              if n < 128 then [false] + ToBits(n, 7)
              else if n < 16384 then [true, false] + ToBits(n, 14)
              else [true, true] + (ToBits(n / 16384, 6) + ToBits(n % 16384, 16))
  {
    hide ToBits;
    if n < 128 {
      assert Pow2(7) == 128;
      LeadingZero(n, 7);
    } else {
      TwoBits();
      assert n - n / 16384 * 16384 == n % 16384;
      assert [true, true] + ToBits(n / 16384, 6) + ToBits(n % 16384, 16)
          == [true, true] + (ToBits(n / 16384, 6) + ToBits(n % 16384, 16));
    }
  }

  lemma {:induction false} LeadingZero(n: nat, k: nat)
    requires n < Pow2(k)
    ensures ToBits(n, k + 1) == [false] + ToBits(n, k)
  {
    hide ToBits, Pow2;
    ToBitsPrefix(n, 1, k);
    assert Zeros(1) == [false];
  }

  lemma {:induction false} TwoBits()
    ensures ToBits(2, 2) == [true, false] && ToBits(3, 2) == [true, true]
  {
    hide ToBits;
    Combine2(1, 0);
    Combine2(1, 1);
  }

  lemma {:induction false} Combine2(a: nat, b: nat)
    requires a <= 1 && b <= 1
    ensures ToBits(2 * a + b, 2) == [a == 1, b == 1]
  {
    hide ToBits, Pow2, Shl;
    assert Pow2(1) == 2 && Shl(a, 1) == 2 * a by { SmallPowers(); ShlIsProduct(a, 1); }
    ToBitsCombine(a, 1, b, 1);
    BitOfFlag(a == 1);
    BitOfFlag(b == 1);
  }

  /** What the decoder makes of any stream: a length below 128 from one octet, below 16384 from
      two, and a refusal wherever the first two bits are both set. */
  lemma {:induction false} LengthDecoded(s: seq<bool>, pos: nat, aligned: bool)
    ensures DecLength(s, pos, aligned) ==
              var q := if aligned then AlignUp(pos) else pos;
              if q + 8 <= |s| && !s[q] then Got(FromBits(s[q + 1..q + 8]), q + 8)
              else if q + 16 <= |s| && s[q] && !s[q + 1] then Got(FromBits(s[q + 2..q + 16]), q + 16)
              else Bad
  {
    hide FromBits, AlignUp, Shl;
    var q := if aligned then AlignUp(pos) else pos;
    if aligned {
      if q + 8 <= |s| { FirstOctet(s, q); }
      if q + 16 <= |s| && s[q] && !s[q + 1] { TwoOctetNumber(s, q); }
    } else {
      if q < |s| { BitValue(s, q); }
      if q + 1 < |s| { BitValue(s, q + 1); }
    }
  }

  /** The first two bits of an octet tell whether it is below 128, below 192 or above. */
  lemma {:induction false} FirstOctet(s: seq<bool>, q: nat)
    requires q + 8 <= |s|
    ensures var o := FromBits(s[q..q + 8]);
            && (!s[q] ==> o == FromBits(s[q + 1..q + 8]) < 128)
            && (s[q] && !s[q + 1] ==> o == 128 + FromBits(s[q + 2..q + 8]) < 192)
            && (s[q] && s[q + 1] ==> o == 192 + FromBits(s[q + 2..q + 8]))
  {
    hide FromBits, Shl, Pow2;
    SmallPowers();
    assert Pow2(6) == 64 && Pow2(7) == 128 by { Pow2Next(3); Pow2Next(4); Pow2Next(5); Pow2Next(6); }
    SplitFirst(s, q, 7);
    SplitFirst(s, q + 1, 6);
  }

  lemma {:induction false} SplitFirst(s: seq<bool>, q: nat, n: nat)
    requires q + 1 + n <= |s|
    ensures FromBits(s[q..q + 1 + n]) == (if s[q] then Pow2(n) else 0) + FromBits(s[q + 1..q + 1 + n])
  {
    hide FromBits, Shl, Pow2;
    var a, c := [s[q]], s[q + 1..q + 1 + n];
    assert s[q..q + 1 + n] == a + c;
    FromBitsConcat(a, c);
    BitOfFlag(s[q]);
    ShlIsProduct(FromBits(a), n);
  }

  lemma {:induction false} TwoOctetNumber(s: seq<bool>, q: nat)
    requires q + 16 <= |s| && s[q] && !s[q + 1]
    ensures var o := FromBits(s[q..q + 8]);
            o >= 128 && Shl(o - 128, 8) + FromBits(s[q + 8..q + 16]) == FromBits(s[q + 2..q + 16])
  {
    hide FromBits, Shl;
    FirstOctet(s, q);
    var a, c := s[q + 2..q + 8], s[q + 8..q + 16];
    assert s[q + 2..q + 16] == a + c;
    FromBitsConcat(a, c);
  }

  // ----- constrained whole number, section 10.5 -----

  /** The unaligned variant: the distance from lb in the least width for the numbers of the
      range, none of it checked; of a range too wide for one packing, nothing. */
  lemma {:induction false} UnalignedOnWire(pos: nat, t: IntType, n: int, lb: int, ub: int) returns (w: nat)
    requires Range(t, lb, ub) && lb <= n <= ub
    ensures Least(w, ub - lb + 1)
    ensures var e := ConstrainedEnc(pos, t, n, lb, ub, false);
            && e.ok && e.need == 0
            && e.bits == if ub - lb < 0x8000_0000_0000_0000 then ToBits(n - lb, w) else []
  {
    hide ToBits, Pow2, CeilLog2, Word;
    w := LeastExists(ub - lb + 1);
    if lb == ub {
      CeilLog2Bound(1, 0);
    } else {
      RangeBits(t, lb, ub);
      WordBits(t, n - lb, w);
      Pow2Of63();
      if ub - lb < 0x8000_0000_0000_0000 {
        CeilLog2Bound(ub - lb + 1, 63);
      } else if w <= 63 {
        Pow2Mono(w, 63);
      }
    }
  }

  /** The aligned variant up to 64K numbers: the bit field below 256 of them, then one octet
      for exactly 256, two for more, from an octet boundary. */
  lemma {:induction false} AlignedOnWire(pos: nat, t: IntType, n: int, lb: int, ub: int) returns (w: nat)
    requires Range(t, lb, ub) && lb <= n <= ub && ub - lb < 65536
    ensures Least(w, ub - lb + 1)
    ensures var e := ConstrainedEnc(pos, t, n, lb, ub, true);
            && e.ok && e.need == |e.bits|
            && e.bits == if ub - lb < 255 then ToBits(n - lb, w)
                         else Zeros(PadLen(pos)) + ToBits(n - lb, if ub - lb == 255 then 8 else 16)
  {
    hide ToBits, Pow2, CeilLog2, Word, Zeros, PadLen;
    w := LeastExists(ub - lb + 1);
    if lb == ub {
      CeilLog2Bound(1, 0);
      return;
    }
    RangeBits(t, lb, ub);
    WordBits(t, n - lb, w);
    OctetsOfRange(ub - lb + 1);
    if ub - lb >= 255 {
      WholeOctets(n - lb, w);
      var z, a, b := Zeros(PadLen(pos)), ToBits(0, 8 * CeilDiv8(w) - w), ToBits(n - lb, w);
      assert z + a + b == z + (a + b);
    }
  }

  lemma {:induction false} OctetsOfRange(ra: nat)
    requires 1 <= ra <= 65536
    ensures CeilLog2(ra) <= 16
    ensures ra >= 256 ==> 8 * CeilDiv8(CeilLog2(ra)) == if ra == 256 then 8 else 16
  {
    hide Pow2, CeilLog2;
    Pow2Of8();
    Pow2Of16();
    Pow2Next(7);
    CeilLog2Bound(ra, 16);
    if ra == 256 {
      CeilLog2Is(ra, 8);
    } else if ra > 256 && CeilLog2(ra) <= 8 {
      Pow2Mono(CeilLog2(ra), 8);
    }
  }

  /** Above, the least number of octets k for the distance, k - 1 in two bits for ranges up to
      2^32 numbers and in three beyond, and the k octets from a boundary if there are fewer than 8. */
  lemma {:induction false} PrefixedOnWire(pos: nat, t: IntType, n: int, lb: int, ub: int) returns (k: nat)
    requires Range(t, lb, ub) && lb <= n <= ub && ub - lb >= 65536
    ensures k >= 1 && n - lb < Pow2(8 * k) && (k > 1 ==> Pow2(8 * (k - 1)) <= n - lb)
    ensures var e, l := ConstrainedEnc(pos, t, n, lb, ub, true), if ub - lb < 0x1_0000_0000 then 2 else 3;
            && (e.ok <==> k < 8) && e.need == |e.bits|
            && e.bits == ToBits(k - 1, l) + Zeros(PadLen(pos + l)) + if k < 8 then ToBits(n - lb, 8 * k) else []
  {
    hide ToBits, Pow2, CeilLog2, Word, Zeros, PadLen, BitLen, IntType.Wrap;
    k := Octets(t, n - lb);
    RangeBits(t, lb, ub);
    PrefixedOctets(t, n, lb, ub);
    LengthFieldWidth(t, lb, ub);
    if k < 8 {
      WordBits(t, n - lb, 8 * k);
    } else {
      var z := ToBits(k - 1, if ub - lb < 0x1_0000_0000 then 2 else 3);
      assert forall x: seq<bool> :: x + [] == x;
    }
  }

  lemma {:induction false} PrefixedOctets(t: IntType, n: int, lb: int, ub: int)
    requires Range(t, lb, ub) && lb <= n <= ub && ub - lb >= 65536
    ensures var k := Octets(t, n - lb);
            && n - lb < Pow2(8 * k) && (k > 1 ==> Pow2(8 * (k - 1)) <= n - lb)
            && 8 * k <= t.width.Bits()
  {
    hide Pow2, CeilLog2, BitLen, IntType.Wrap;
    var x := Max(n - lb, 1);
    assert t.Wrap(n - lb) == n - lb;
    var b := BitLen(x);
    Pow2Mono(b, 8 * CeilDiv8(b));
    if CeilDiv8(b) > 1 {
      Pow2Mono(8 * (CeilDiv8(b) - 1), b - 1);
      Pow2Mono(1, b - 1);
      SmallPowers();
    }
    ModulusIsPow2(t.width);
    BitLenBound(x, t.width.Bits());
  }

  /** The width of the field that counts the octets. */
  lemma {:induction false} LengthFieldWidth(t: IntType, lb: int, ub: int)
    requires Range(t, lb, ub) && ub - lb >= 65536
    ensures CeilLog2(CeilDiv8(CeilLog2(ub - lb + 1))) == if ub - lb < 0x1_0000_0000 then 2 else 3
  {
    hide Pow2, CeilLog2;
    var n := CeilLog2(ub - lb + 1);
    RangeBits(t, lb, ub);
    SmallPowers();
    Pow2Of16();
    ModulusIsPow2(W32);
    if ub - lb < 0x1_0000_0000 {
      CeilLog2Bound(ub - lb + 1, 32);
      if n <= 16 { Pow2Mono(n, 16); }
      CeilLog2Is(CeilDiv8(n), 2);
    } else {
      if n <= 32 { Pow2Mono(n, 32); }
      CeilLog2Is(CeilDiv8(n), 3);
    }
  }

  /** Outside the range nothing is written and the refusal is reported. */
  lemma {:induction false} OutsideRefused(pos: nat, t: IntType, n: int, lb: int, ub: int, aligned: bool)
    requires !(lb <= n <= ub)
    ensures ConstrainedEnc(pos, t, n, lb, ub, aligned) == Enc([], 0, false)
  {
  }

  /** The decoders on any stream.  Unaligned: w bits, a number that wraps in its type, and a
      comparison with the upper bound alone. */
  lemma {:induction false} UnalignedDecoded(s: seq<bool>, pos: nat, t: IntType, lb: int, ub: int, w: nat)
    requires Range(t, lb, ub) && lb < ub && Least(w, ub - lb + 1)
    ensures DecConstrained(s, pos, t, lb, ub, false) ==
              if pos + w > |s| then Bad
              else
                var n := t.Wrap(FromBits(s[pos..pos + w]) + lb);
                if n > ub then Bad else Got(n, pos + w)
  {
    hide FromBits, CeilLog2, Pow2, IntType.Wrap, DecConstrained, DecBits;
    LeastIs(w, ub - lb + 1);
    RangeBits(t, lb, ub);
    UnalignedSteps(s, pos, t, lb, ub);
    BitsDecoded(s, pos, w, t.width.Bits());
    if pos + w <= |s| {
      WrapAgain(t, FromBits(s[pos..pos + w]), lb);
    }
  }

  lemma {:induction false} UnalignedSteps(s: seq<bool>, pos: nat, t: IntType, lb: int, ub: int)
    requires lb < ub
    ensures DecConstrained(s, pos, t, lb, ub, false) ==
              var d := DecBits(s, pos, CeilLog2(ub - lb + 1), t.width.Bits());
              if d.Bad? || t.Wrap(t.Wrap(d.val) + lb) > ub then Bad else Got(t.Wrap(t.Wrap(d.val) + lb), d.pos)
  {
    hide CeilLog2, Pow2, IntType.Wrap, DecBits, DecAlignedField;
  }

  lemma {:induction false} BitsDecoded(s: seq<bool>, pos: nat, n: nat, width: nat)
    requires n <= width
    ensures DecBits(s, pos, n, width) == if pos + n > |s| then Bad else Got(FromBits(s[pos..pos + n]), pos + n)
  {
    hide FromBits, Pow2;
  }

  lemma {:induction false} TooWide(s: seq<bool>, pos: nat, n: nat, width: nat)
    requires n > width
    ensures DecBits(s, pos, n, width).Bad?
  {
  }

  /** Aligned, up to 64K numbers: the bit field, or one octet or two from a boundary, and no
      comparison at all. */
  lemma {:induction false} AlignedDecoded(s: seq<bool>, pos: nat, t: IntType, lb: int, ub: int, w: nat)
    requires Range(t, lb, ub) && lb < ub && ub - lb < 65536 && Least(w, ub - lb + 1)
    ensures DecConstrained(s, pos, t, lb, ub, true) ==
              var q := if ub - lb < 255 then pos else AlignUp(pos);
              var m := if ub - lb < 255 then w else if ub - lb == 255 then 8 else 16;
              if q + m > |s| then Bad else Got(t.Wrap(FromBits(s[q..q + m]) + lb), q + m)
  {
    hide FromBits, AlignUp, CeilLog2, Pow2, IntType.Wrap, DecAlignedField;
    var q := if ub - lb < 255 then pos else AlignUp(pos);
    var m := if ub - lb < 255 then w else if ub - lb == 255 then 8 else 16;
    FieldDecoded(s, pos, t, lb, ub, w);
    if q + m <= |s| {
      WrapAgain(t, FromBits(s[q..q + m]), lb);
    }
  }

  lemma {:induction false} FieldDecoded(s: seq<bool>, pos: nat, t: IntType, lb: int, ub: int, w: nat)
    requires Range(t, lb, ub) && lb < ub && ub - lb < 65536 && Least(w, ub - lb + 1)
    ensures DecAlignedField(s, pos, ub - lb + 1, t.width.Bits()) ==
              var q := if ub - lb < 255 then pos else AlignUp(pos);
              var m := if ub - lb < 255 then w else if ub - lb == 255 then 8 else 16;
              if q + m > |s| then Bad else Got(FromBits(s[q..q + m]), q + m)
  {
    hide FromBits, AlignUp, CeilLog2, Pow2;
    LeastIs(w, ub - lb + 1);
    AlignedWidthFits(t, lb, ub);
    if ub - lb >= 255 {
      OctetsOfRange(ub - lb + 1);
      AlignUpOctets(AlignUp(pos), if ub - lb == 255 then 1 else 2);
    }
  }

  /** Aligned, above: as many octets as the two or three bits in front announce. */
  lemma {:induction false} PrefixedDecoded(s: seq<bool>, pos: nat, t: IntType, lb: int, ub: int)
    requires Range(t, lb, ub) && ub - lb >= 65536
    ensures DecConstrained(s, pos, t, lb, ub, true) ==
              var l := if ub - lb < 0x1_0000_0000 then 2 else 3;
              if pos + l > |s| then Bad
              else
                var q, m := AlignUp(pos + l), 8 * (FromBits(s[pos..pos + l]) + 1);
                if q + m > |s| then Bad else Got(t.Wrap(FromBits(s[q..q + m]) + lb), q + m)
  {
    hide FromBits, AlignUp, CeilLog2, Pow2, IntType.Wrap;
    var l := if ub - lb < 0x1_0000_0000 then 2 else 3;
    LengthFieldWidth(t, lb, ub);
    LongestFieldIs(t, lb, ub);
    SmallPowers();
    if pos + l <= |s| {
      var q, m := AlignUp(pos + l), 8 * (FromBits(s[pos..pos + l]) + 1);
      if q + m <= |s| {
        WrapAgain(t, FromBits(s[q..q + m]), lb);
      }
    }
  }

  // ----- normally small number and enumeration -----

  /** Seven bits, the first of them zero, up to 63; one bit and a refusal above. */
  lemma {:induction false} SmallOnWire(n: nat)
    ensures SmallEnc(n) == if n <= 63 then Enc([false] + ToBits(n, 6), 7, true) else Enc([true], 1, false)
  {
    hide ToBits;
    if n <= 63 {
      assert Pow2(6) == 64;
      LeadingZero(n, 6);
    } else {
      BitOfFlag(true);
    }
  }

  lemma {:induction false} SmallDecoded(s: seq<bool>, pos: nat, width: nat)
    requires width >= 8
    ensures DecSmall(s, pos, width) ==
              if pos + 7 <= |s| && !s[pos] then Got(FromBits(s[pos + 1..pos + 7]), pos + 7) else Bad
  {
    hide FromBits;
    if pos < |s| { BitValue(s, pos); }
  }

  /** An enumeration without extension marker takes the least width for all its values; with
      one, a zero bit and the least width for the root, or 10 and six bits counted from the root. */
  lemma {:induction false} EnumOnWire(e: nat, nofTypes: nat, nofExts: nat, hasExt: bool) returns (w: nat)
    requires nofExts < nofTypes <= 0xFFFF_FFFF && e < nofTypes
    ensures Least(w, if hasExt then nofTypes - nofExts else nofTypes)
    ensures var r, root := EnumEnc(e, nofTypes, nofExts, hasExt), nofTypes - nofExts;
            if !hasExt then r == Enc(ToBits(e, w), w, true)
            else if e < root then r == Enc([false] + ToBits(e, w), 1 + w, true)
            else if e < root + 64 then r == Enc([true, false] + ToBits(e - root, 6), 8, true)
            else r == Enc([true, true], 2, false)
  {
    hide ToBits, Pow2, CeilLog2, SmallEnc;
    var root := nofTypes - nofExts;
    EnumWidth(nofTypes);
    EnumWidth(root);
    w := LeastExists(if hasExt then root else nofTypes);
    BitOfFlag(true);
    BitOfFlag(false);
    if hasExt {
      if e >= root {
        SmallOnWire(e - root);
        assert [true] + ([false] + ToBits(e - root, 6)) == [true, false] + ToBits(e - root, 6);
      } else if w == 0 {
        assert ToBits(e, w) == [];
      }
    }
  }

  /** A root value, from any stream: the least width for the values there are, then a
      comparison with the number of all values. */
  lemma {:induction false} EnumRootDecoded(s: seq<bool>, pos: nat, nofTypes: nat, nofExts: nat, hasExt: bool, w: nat)
    requires nofExts < nofTypes <= 0xFFFF_FFFF && Least(w, if hasExt then nofTypes - nofExts else nofTypes)
    requires hasExt ==> pos < |s| && !s[pos]
    ensures DecEnum(s, pos, nofTypes, nofExts, hasExt) ==
              var q := if hasExt then pos + 1 else pos;
              if q + w > |s| || FromBits(s[q..q + w]) >= nofTypes then Bad else Got(FromBits(s[q..q + w]), q + w)
  {
    hide FromBits, CeilLog2, Pow2, DecSmall;
    var values := if hasExt then nofTypes - nofExts else nofTypes;
    EnumWidth(values);
    LeastIs(w, values);
    if hasExt {
      BitValue(s, pos);
    }
  }

  /** An extension value: a zero bit and six bits counted from the root; a one is refused. */
  lemma {:induction false} EnumExtensionDecoded(s: seq<bool>, pos: nat, nofTypes: nat, nofExts: nat)
    requires nofExts < nofTypes <= 0xFFFF_FFFF && pos < |s| && s[pos]
    ensures DecEnum(s, pos, nofTypes, nofExts, true) ==
              if pos + 8 > |s| || s[pos + 1] || FromBits(s[pos + 2..pos + 8]) >= nofExts then Bad
              else Got(nofTypes - nofExts + FromBits(s[pos + 2..pos + 8]), pos + 8)
  {
    hide FromBits, CeilLog2, Pow2, DecSmall;
    BitValue(s, pos);
    SmallDecoded(s, pos + 1, 32);
  }

  // ----- integer, section 12.2.6 -----

  /** A positive number at its own length: k octets, k the least with n <= 2^(8k-1), behind
      the one-octet length k; numbers of 8 octets or more are refused behind their length. */
  lemma {:induction false} UnconstrainedOnWire(pos: nat, n: nat, aligned: bool) returns (k: nat)
    requires 1 <= n <= 0xFFFF_FFFF_FFFF_FFFF
    ensures k >= 1 && n <= Pow2(8 * k - 1) && (k > 1 ==> n > Pow2(8 * (k - 1) - 1))
    ensures var e := UnconstrainedEnc(pos, n, aligned);
            && (e.ok <==> k < 8) && e.need == |e.bits|
            && e.bits == Gap(pos, aligned) + ([false] + ToBits(k, 7)) + if k < 8 then ToBits(n, 8 * k) else []
  {
    hide ToBits, Pow2, CeilLog2, LengthEnc, Zeros, PadLen;
    var c := LeastExists(n);
    k := CeilDiv8(c + 1);
    assert k == UnconstrainedLen(n);
    LeastOctets(n);
    LengthOnWire(pos, k, aligned);
    assert k < 128;
    var l := LengthEnc(pos, k, aligned).bits;
    assert aligned ==> PadLen(pos + |l|) == 0 by { OctetLength(pos, |l|, aligned); }
    var p := if aligned then Pad(pos + |l|).bits else [];
    assert p == [];
    assert l + p == l;
    assert forall x: seq<bool> :: x + [] == x;
  }

  lemma {:induction false} OctetLength(pos: nat, m: nat, aligned: bool)
    requires aligned ==> m == PadLen(pos) + 8
    ensures aligned ==> PadLen(pos + m) == 0
  {
  }

  lemma {:induction false} LeastOctets(n: nat)
    requires 1 <= n <= 0xFFFF_FFFF_FFFF_FFFF
    ensures var k := CeilDiv8(CeilLog2(n) + 1);
            1 <= k <= 9 && n <= Pow2(8 * k - 1) && (k > 1 ==> n > Pow2(8 * (k - 1) - 1))
  {
    hide Pow2, CeilLog2;
    var c := CeilLog2(n);
    var k := CeilDiv8(c + 1);
    ModulusIsPow2(W64);
    CeilLog2Bound(n, 64);
    Pow2Mono(c, 8 * k - 1);
    if k > 1 {
      Pow2Mono(8 * (k - 1) - 1, c - 1);
    }
  }

  /** The decoder reads as many octets as the length of one octet or two announces, if its type
      has room for them. */
  lemma {:induction false} UnconstrainedDecoded(s: seq<bool>, pos: nat, t: IntType, aligned: bool)
    ensures DecUnconstrained(s, pos, t, aligned) ==
              var q := if aligned then AlignUp(pos) else pos;
              var h := if q < |s| && s[q] then 2 else 1;
              if q + 8 * h > |s| || (s[q] && s[q + 1]) then Bad
              else
                var a, m := q + 8 * h, 8 * FromBits(s[q + h..q + 8 * h]);
                if m > t.width.Bits() || a + m > |s| then Bad else Got(t.Wrap(FromBits(s[a..a + m])), a + m)
  {
    hide FromBits, AlignUp, IntType.Wrap, DecLength, DecBits, Pow2;
    LengthDecoded(s, pos, aligned);
    var q := if aligned then AlignUp(pos) else pos;
    if aligned {
      AlignUpOctets(q, 1);
      AlignUpOctets(q, 2);
    }
    var l := DecLength(s, pos, aligned);
    if l.Got? && 8 * l.val <= t.width.Bits() {
      BitsDecoded(s, l.pos, 8 * l.val, t.width.Bits());
    } else if l.Got? {
      TooWide(s, l.pos, 8 * l.val, t.width.Bits());
    }
  }

  /** The extension bit says whether the number is outside its bounds.  Inside, two bounds mean a
      constrained number, or nothing if they are equal, and one bound alone means nothing at
      all; a number outside, or one without bounds, goes at its own length. */
  lemma {:induction false} IntegerOnWire(pos: nat, t: IntType, n: int, lb: int, ub: int, hasExt: bool, aligned: bool)
    requires LengthTaken(t, n, lb, ub) ==> n >= 1 || !(hasExt || lb <= n <= ub)
    ensures var e, inside := IntegerEnc(pos, t, n, lb, ub, hasExt, aligned), lb <= n <= ub;
            var below, above := t.signed && lb == t.Lo(), ub == t.Hi();
            var x := if hasExt then [!inside] else [];
            if !hasExt && !inside then e == Enc([], 0, false)
            else if !inside || (below && above) then
              var u := UnconstrainedEnc(pos + |x|, n, aligned);
              e.bits == x + u.bits && e.ok == u.ok
            else if below || above || lb == ub then e.bits == x && e.ok
            else
              var c := ConstrainedEnc(pos + |x|, t, n, lb, ub, aligned);
              e.bits == x + c.bits && e.ok == c.ok
  {
    hide ConstrainedEnc, UnconstrainedEnc, IntType.Lo, IntType.Hi, ToBits;
    BitOfFlag(!(lb <= n <= ub));
    var x := if hasExt then [!(lb <= n <= ub)] else [];
    assert x + [] == x;
    var b := if hasExt || lb <= n <= ub then IntegerBody(pos + |x|, t, n, lb, ub, aligned) else NOTHING;
    assert [] + b.bits == b.bits;
  }

  /** The decoder's branches on any stream; n0 is what the target held. */
  lemma {:induction false} IntegerStream(s: seq<bool>, pos: nat, t: IntType, n0: int, lb: int, ub: int, hasExt: bool, aligned: bool)
    ensures var d := DecInteger(s, pos, t, n0, lb, ub, hasExt, aligned);
            var below, above := t.signed && lb == t.Lo(), ub == t.Hi();
            if hasExt && pos >= |s| then d == Bad
            else
              var p := if hasExt then pos + 1 else pos;
              if (hasExt && s[pos]) || (below && above) then d == DecUnconstrained(s, p, t, aligned)
              else if below || above || lb == ub then d == Got(n0, p)
              else d == DecConstrained(s, p, t, lb, ub, aligned)
  {
    hide FromBits, DecConstrained, DecUnconstrained, IntType.Lo, IntType.Hi;
    if hasExt && pos < |s| { BitValue(s, pos); }
  }
}
