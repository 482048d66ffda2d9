/** ITU-T X.691 encodings as the codec writes and reads them: constrained whole
    numbers (10.5), normally small numbers (10.6), length determinants (10.9),
    integers (12.2.6) and enumerations. */
module PerFormat {
  import opened BitSeq
  import opened CBitRefs
  import opened Wire

  // ----- machine integer types -----

  datatype Width = W8 | W16 | W32 | W64 {
    function Bits(): nat {
      match this
      case W8 => 8
      case W16 => 16
      case W32 => 32
      case W64 => 64
    }

    function Modulus(): nat {
      match this
      case W8 => 0x100
      case W16 => 0x1_0000
      case W32 => 0x1_0000_0000
      case W64 => 0x1_0000_0000_0000_0000
    }
  }

  datatype IntType = IntType(width: Width, signed: bool) {
    function Lo(): int { if signed then -(width.Modulus() / 2) else 0 }

    function Hi(): int { if signed then width.Modulus() / 2 - 1 else width.Modulus() - 1 }

    /** Conversion to this type: the value modulo 2^width that it can hold. */
    function Wrap(x: int): (r: int)
      ensures Lo() <= r <= Hi()
      ensures Lo() <= x <= Hi() ==> r == x
    {
      (x - Lo()) % width.Modulus() + Lo()
    }

    predicate Holds(x: int) { Lo() <= x <= Hi() }
  }

  const UINT32 := IntType(W32, false)
  const UINT64 := IntType(W64, false)

  lemma {:induction false} ModulusIsPow2(w: Width)
    ensures w.Modulus() == Pow2(w.Bits())
  {
    Pow2Of8();
    Pow2Add(8, 8);
    Pow2Add(16, 16);
    Pow2Add(32, 32);
    ShlIsProduct(0x100, 8);
    ShlIsProduct(0x1_0000, 16);
    ShlIsProduct(0x1_0000_0000, 32);
  }

  lemma {:induction false} WrapAgain(t: IntType, x: int, y: int)
    ensures t.Wrap(t.Wrap(x) + y) == t.Wrap(x + y)
  {
    hide IntType.Lo, Width.Modulus;
    var lo, m := t.Lo(), t.width.Modulus();
    ModulusCases(t.width);
    ModAgain(x - lo, y, m);
    assert (x - lo) % m + lo + y - lo == (x - lo) % m + y && x + y - lo == x - lo + y;
  }

  lemma {:induction false} ModulusCases(w: Width)
    ensures w.Modulus() in {0x100, 0x1_0000, 0x1_0000_0000, 0x1_0000_0000_0000_0000}
  {
  }

  lemma {:induction false} ModAgain(a: int, y: int, m: nat)
    requires m in {0x100, 0x1_0000, 0x1_0000_0000, 0x1_0000_0000_0000_0000}
    ensures (a % m + y) % m == (a + y) % m
  {
  }

  // ----- exact logarithms -----

  /** Least k with x <= 2^k. */
  function CeilLog2(x: nat): (k: nat)
    requires x >= 1
    ensures x <= Pow2(k) && (k > 0 ==> Pow2(k - 1) < x)
  {
    if x == 1 then 0 else 1 + CeilLog2((x + 1) / 2)
  }

  /** Number of significant bits of x. */
  function BitLen(x: nat): (k: nat)
    requires x >= 1
    ensures k >= 1 && Pow2(k - 1) <= x < Pow2(k)
  {
    if x == 1 then 1 else 1 + BitLen(x / 2)
  }

  lemma {:induction false} CeilLog2Bound(x: nat, k: nat)
    requires 1 <= x <= Pow2(k)
    ensures CeilLog2(x) <= k
  {
    if CeilLog2(x) > k {
      Pow2Mono(k, CeilLog2(x) - 1);
    }
  }

  lemma {:induction false} BitLenBound(x: nat, k: nat)
    requires 1 <= x < Pow2(k)
    ensures BitLen(x) <= k
  {
    if BitLen(x) > k {
      Pow2Mono(k, BitLen(x) - 1);
    }
  }

  // ----- length determinant, section 10.9 -----

  /** The octets of a length below 64K: one, two, or a fragment header. */
  function LengthBody(n: nat): (e: Enc)
    requires n <= 65536
    ensures e.Valid() && e.ok && e.need == |e.bits| == if n < 128 then 8 else if n < 16384 then 16 else 24
  {
    if n < 128 then Field(n, 8)
    else if n < 16384 then Field(2, 2).Then(Field(n, 14))
    else Field(3, 2).Then(Field(n / 16384, 6)).Then(Field(n - n / 16384 * 16384, 16))
  }

  function LengthEnc(pos: nat, n: nat, aligned: bool): (e: Enc)
    ensures e.Valid()
  {
    if !aligned then
      if n < 16384 then LengthBody(n) else REFUSED
    else if n > 65536 then REFUSED
    else Pad(pos).Then(LengthBody(n))
  }

  function DecLength(s: seq<bool>, pos: nat, aligned: bool): (d: Dec<nat>)
    ensures d.Got? ==> pos < d.pos <= |s|
  {
    if !aligned then
      var e := DecBits(s, pos, 1, 8);
      if e.Bad? then Bad
      else if e.val == 0 then DecBits(s, e.pos, 7, 32)
      else
        var f := DecBits(s, e.pos, 1, 8);
        if f.Bad? || f.val != 0 then Bad else DecBits(s, f.pos, 14, 32)
    else
      var o := DecBits(s, AlignUp(pos), 8, 32);
      if o.Bad? || o.val < 128 then o
      else if o.val - 128 < 64 then
        var p := DecBits(s, o.pos, 8, 32);
        if p.Bad? then Bad else Got(Shl(o.val - 128, 8) + p.val, p.pos)
      else Bad
  }

  lemma {:induction false} LengthStrict(pos: nat, n: nat, aligned: bool)
    ensures Strict(LengthEnc(pos, n, aligned))
  {
    hide LengthBody;
  }

  /** Every length the encoder accepts is read back below 16384 and refused from
      there on: the aligned variant writes the fragmented form of section 10.9.3.8
      that the decoder does not know. */
  lemma {:induction false} LengthRoundTrip(s: seq<bool>, pos: nat, n: nat, aligned: bool)
    requires var e := LengthEnc(pos, n, aligned); e.ok && At(s, pos, e.bits)
    ensures var e := LengthEnc(pos, n, aligned);
            DecLength(s, pos, aligned) == if n < 16384 then Got(n, pos + |e.bits|) else Bad
  {
    hide LengthBody, DecLength;
    if aligned {
      AtSplit(s, pos, Zeros(PadLen(pos)), LengthBody(n).bits);
      AlignedLengthBody(s, pos, n);
    } else {
      UnalignedLengthBody(s, pos, n);
    }
  }

  lemma {:induction false} UnalignedLengthBody(s: seq<bool>, pos: nat, n: nat)
    requires n < 16384 && At(s, pos, LengthBody(n).bits)
    ensures DecLength(s, pos, false) == Got(n, pos + |LengthBody(n).bits|)
  {
    hide At, ToBits, FromBits, DecBits;
    if n < 128 {
      assert Pow2(7) == 128;
      ToBitsPrefix(n, 1, 7);
      ToBitsZero(1);
      AtSplit(s, pos, ToBits(0, 1), ToBits(n, 7));
      ReadBackExact(s, pos, 0, 1, 8);
      ReadBackExact(s, pos + 1, n, 7, 32);
    } else {
      assert Pow2(14) == 16384 && Pow2(1) == 2;
      AtSplit(s, pos, ToBits(2, 2), ToBits(n, 14));
      assert ToBits(2, 2) == ToBits(1, 1) + ToBits(0, 1) by { ToBitsCombine(1, 1, 0, 1); }
      AtSplit(s, pos, ToBits(1, 1), ToBits(0, 1));
      ReadBackExact(s, pos, 1, 1, 8);
      ReadBackExact(s, pos + 1, 0, 1, 8);
      ReadBackExact(s, pos + 2, n, 14, 32);
    }
  }

  lemma {:induction false} AlignedLengthBody(s: seq<bool>, pos: nat, n: nat)
    requires n <= 65536 && At(s, AlignUp(pos), LengthBody(n).bits)
    ensures DecLength(s, pos, true)
         == if n < 16384 then Got(n, AlignUp(pos) + |LengthBody(n).bits|) else Bad
  {
    hide At, ToBits, FromBits, DecBits;
    Pow2Of8();
    var p := AlignUp(pos);
    if n < 128 {
      ReadBackExact(s, p, n, 8, 32);
    } else if n < 16384 {
      TwoOctetLength(s, p, n);
    } else {
      FragmentHeader(s, p, n);
    }
  }

  lemma {:induction false} TwoOctetLength(s: seq<bool>, p: nat, n: nat)
    requires 128 <= n < 16384 && At(s, p, ToBits(2, 2) + ToBits(n, 14))
    ensures var o := DecBits(s, p, 8, 32); var q := DecBits(s, p + 8, 8, 32);
            && o.Got? && o.pos == p + 8 && 128 <= o.val < 192
            && q.Got? && q.pos == p + 16 && Shl(o.val - 128, 8) + q.val == n
  {
    hide At, ToBits, FromBits, DecBits;
    Pow2Of8();
    assert Pow2(6) == 64 && Pow2(14) == 16384;
    TwoOctets(n);
    AtSplit(s, p, ToBits(128 + Shr(n, 8), 8), ToBits(n, 8));
    ShrBound(n, 8, 14);
    ReadBackExact(s, p, 128 + Shr(n, 8), 8, 32);
    ReadBack(s, p + 8, n, 8, 32);
    ShiftSplit(n, 8);
  }

  lemma {:induction false} FragmentHeader(s: seq<bool>, p: nat, n: nat)
    requires 16384 <= n <= 65536 && At(s, p, LengthBody(n).bits)
    ensures var o := DecBits(s, p, 8, 32); o.Got? && o.val >= 192
  {
    hide At, ToBits, FromBits, DecBits;
    Pow2Of8();
    var m, rest := n / 16384, ToBits(n - n / 16384 * 16384, 16);
    assert Pow2(6) == 64 && m < 64 && Shl(3, 6) == 192;
    ToBitsCombine(3, 2, m, 6);
    AtSplit(s, p, ToBits(192 + m, 8), rest);
    ReadBackExact(s, p, 192 + m, 8, 32);
  }

  lemma {:induction false} TwoOctets(n: nat)
    requires n < 16384
    ensures ToBits(2, 2) + ToBits(n, 14) == ToBits(128 + Shr(n, 8), 8) + ToBits(n, 8)
  {
    hide At, ToBits;
    assert Pow2(14) == 16384 && Pow2(6) == 64 && Shl(2, 6) == 128;
    ShrBound(n, 8, 14);
    ToBitsSplit(n, 6, 8);
    ToBitsCombine(2, 2, Shr(n, 8), 6);
    assert ToBits(2, 2) + (ToBits(Shr(n, 8), 6) + ToBits(n, 8))
        == ToBits(2, 2) + ToBits(Shr(n, 8), 6) + ToBits(n, 8);
  }

  // ----- constrained whole number, section 10.5 -----

  /** What C++ needs of the bounds: the difference ub - lb can be formed in the
      promoted type, and the size of the range in 64 bits. */
  predicate Range(t: IntType, lb: int, ub: int) {
    && t.Holds(lb) && t.Holds(ub)
    && (t.signed && t.width in {W32, W64} ==> ub - lb <= t.Hi())
    && ub - lb < 0xFFFF_FFFF_FFFF_FFFF
  }

  /** The word handed to the packer: the difference x in type t, as 64 bits. */
  function Word(t: IntType, x: int): nat { UINT64.Wrap(t.Wrap(x)) }

  /** Octets of the length-prefixed form. */
  function Octets(t: IntType, x: int): (k: nat)
    ensures k >= 1
  {
    CeilDiv8(BitLen(Max(t.Wrap(x), 1)))
  }

  function ConstrainedEnc(pos: nat, t: IntType, n: int, lb: int, ub: int, aligned: bool): (e: Enc)
    ensures e.Valid()
  {
    if ub < lb || n < lb || n > ub then REFUSED
    else if ub == lb then NOTHING
    else if !aligned then Enc(Field(Word(t, n - lb), CeilLog2(ub - lb + 1)).bits, 0, true)
    else AlignedEnc(pos, t, n - lb, ub - lb + 1)
  }

  /** The aligned variant's three field shapes, by the size of the range. */
  function AlignedEnc(pos: nat, t: IntType, x: int, ra: nat): (e: Enc)
    requires ra > 1
    ensures e.Valid()
  {
    var nBits := CeilLog2(ra);
    if ra < 256 then Field(Word(t, x), nBits)
    else if ra <= 65536 then
      Pad(pos).Then(Field(0, 8 * CeilDiv8(nBits) - nBits)).Then(Field(Word(t, x), nBits))
    else
      var lenBits := CeilLog2(CeilDiv8(nBits));
      Field(Octets(t, x) - 1, lenBits).Then(Pad(pos + lenBits)).Then(Field(Word(t, x), 8 * Octets(t, x)))
  }

  function DecConstrained(s: seq<bool>, pos: nat, t: IntType, lb: int, ub: int, aligned: bool): Dec<int> {
    if ub < lb then Bad
    else if ub == lb then Got(lb, pos)
    else
      var ra := ub - lb + 1;
      var nBits := CeilLog2(ra);
      var w := t.width.Bits();
      if !aligned then
        var d := DecBits(s, pos, nBits, w);
        if d.Bad? then Bad
        else
          var n := t.Wrap(t.Wrap(d.val) + lb);
          if n > ub then Bad else Got(n, d.pos)
      else
        var d := DecAlignedField(s, pos, ra, w);
        if d.Bad? then Bad else Got(t.Wrap(t.Wrap(d.val) + lb), d.pos)
  }

  function DecAlignedField(s: seq<bool>, pos: nat, ra: nat, w: nat): Dec<nat>
    requires ra > 1
  {
    var nBits := CeilLog2(ra);
    if ra < 256 then DecBits(s, pos, nBits, w)
    else if ra <= 65536 then
      var d := DecBits(s, AlignUp(pos), 8 * CeilDiv8(nBits), w);
      if d.Bad? then Bad else Got(d.val, AlignUp(d.pos))
    else
      var l := DecBits(s, pos, CeilLog2(CeilDiv8(nBits)), 32);
      if l.Bad? then Bad else DecBits(s, AlignUp(l.pos), 8 * (l.val + 1), w)
  }

  lemma {:induction false} WordBits(t: IntType, x: nat, k: nat)
    requires x < t.width.Modulus() && k <= t.width.Bits()
    ensures ToBits(Word(t, x), k) == ToBits(x, k)
  {
    hide At, Low, ToBits, Shl, Pow2;
    hide IntType.Wrap;
    WordValue(t, x);
    match t.width
    case W8 => WrapWord(t, x, k, 0xFF_FFFF_FFFF_FFFF);
    case W16 => WrapWord(t, x, k, 0xFFFF_FFFF_FFFF);
    case W32 => WrapWord(t, x, k, 0xFFFF_FFFF);
    case W64 => WrapWord(t, x, k, 0);
  }

  /** A difference too large for a signed type goes negative, then wraps in 64 bits. */
  lemma {:induction false} WordValue(t: IntType, x: nat)
    requires x < t.width.Modulus()
    ensures Word(t, x) == if x <= t.Hi() then x else x - t.width.Modulus() + 0x1_0000_0000_0000_0000
  {
    WrapOnce(t, x);
    WrapOnce(UINT64, if x <= t.Hi() then x else x - t.width.Modulus() + 0x1_0000_0000_0000_0000);
    if x > t.Hi() {
      WrapAround(UINT64, x - t.width.Modulus());
    }
  }

  lemma {:induction false} WrapOnce(t: IntType, x: nat)
    requires x < t.width.Modulus()
    ensures t.Wrap(x) == if x <= t.Hi() then x else x - t.width.Modulus()
  {
    match t.width
    case W8 =>
    case W16 =>
    case W32 =>
    case W64 =>
  }

  lemma {:induction false} WrapAround(t: IntType, x: int)
    requires !t.signed && 0 - t.width.Modulus() <= x < 0
    ensures t.Wrap(x) == x + t.width.Modulus()
  {
    match t.width
    case W8 =>
    case W16 =>
    case W32 =>
    case W64 =>
  }

  lemma {:induction false} WrapWord(t: IntType, x: nat, k: nat, h: nat)
    requires x < t.width.Modulus() && k <= t.width.Bits()
    requires Word(t, x) == x || Word(t, x) == x + h * t.width.Modulus()
    ensures ToBits(Word(t, x), k) == ToBits(x, k)
  {
    hide At, Low, ToBits, Shl, Pow2, Word;
    ModulusIsPow2(t.width);
    ShlIsProduct(h, t.width.Bits());
    LowAddShl(x, h, t.width.Bits(), k);
    ToBitsLow(Word(t, x), x, k);
  }

  lemma {:induction false} RangeBits(t: IntType, lb: int, ub: int)
    requires Range(t, lb, ub) && lb <= ub
    ensures ub - lb < t.width.Modulus() && CeilLog2(ub - lb + 1) <= t.width.Bits()
  {
    ModulusIsPow2(t.width);
    CeilLog2Bound(ub - lb + 1, t.width.Bits());
  }

  /** Encoding then decoding gives the number back at the cursor the encoder left,
      in the bit-field, octet-aligned and length-prefixed forms of both variants. */
  lemma {:induction false} ConstrainedRoundTrip(s: seq<bool>, pos: nat, t: IntType, n: int, lb: int, ub: int, aligned: bool)
    requires Range(t, lb, ub)
    requires var e := ConstrainedEnc(pos, t, n, lb, ub, aligned); e.ok && At(s, pos, e.bits)
    requires !aligned ==> ub - lb < 0x8000_0000_0000_0000
    ensures DecConstrained(s, pos, t, lb, ub, aligned)
         == Got(n, pos + |ConstrainedEnc(pos, t, n, lb, ub, aligned).bits|)
  {
    hide At, ToBits, CeilLog2, DecBits, DecAlignedField, Low, Pow2, AlignedEnc, Word;
    if ub > lb {
      var x, ra := n - lb, ub - lb + 1;
      var nBits := CeilLog2(ra);
      RangeBits(t, lb, ub);
      WrapAgain(t, x, lb);
      if !aligned {
        Pow2Of63();
        CeilLog2Bound(ra, 63);
        WordBits(t, x, nBits);
        ReadBackExact(s, pos, x, nBits, t.width.Bits());
      } else {
        AlignedRoundTrip(s, pos, t, x, ra);
      }
    }
  }

  /** From a distance of 2^63 between the bounds on, the field is wider than a packing takes;
      the refusal goes unnoticed in the unaligned variant, and nothing is written. */
  lemma {:induction false} WideFieldIsLost(t: IntType, n: int, lb: int, ub: int)
    requires Range(t, lb, ub) && lb <= n <= ub && ub - lb >= 0x8000_0000_0000_0000
    ensures ConstrainedEnc(0, t, n, lb, ub, false) == Enc([], 0, true)
    ensures DecConstrained([], 0, t, lb, ub, false).Bad?
  {
    hide CeilLog2, Word, Pow2;
    Pow2Of63();
    var k := CeilLog2(ub - lb + 1);
    if k <= 63 {
      Pow2Mono(k, 63);
    }
  }

  /** So in the unaligned variant the numbers of a range come back exactly when the distance
      between its bounds is below 2^63. */
  lemma {:induction false} UnalignedRoundTripExactly(t: IntType, n: int, lb: int, ub: int)
    requires Range(t, lb, ub) && lb <= n <= ub
    ensures (forall s, pos: nat | At(s, pos, ConstrainedEnc(pos, t, n, lb, ub, false).bits) ::
               DecConstrained(s, pos, t, lb, ub, false) == Got(n, pos + |ConstrainedEnc(pos, t, n, lb, ub, false).bits|))
       <==> ub - lb < 0x8000_0000_0000_0000
  {
    hide DecConstrained, IntType.Wrap, CeilLog2, Word, ToBits;
    if ub - lb < 0x8000_0000_0000_0000 {
      forall s, pos: nat | At(s, pos, ConstrainedEnc(pos, t, n, lb, ub, false).bits)
        ensures DecConstrained(s, pos, t, lb, ub, false) == Got(n, pos + |ConstrainedEnc(pos, t, n, lb, ub, false).bits|)
      {
        ConstrainedRoundTrip(s, pos, t, n, lb, ub, false);
      }
    } else {
      WideFieldIsLost(t, n, lb, ub);
      assert At([], 0, ConstrainedEnc(0, t, n, lb, ub, false).bits);
    }
  }

  lemma {:induction false} Pow2Of63()
    ensures Pow2(63) == 0x8000_0000_0000_0000
  {
    ModulusIsPow2(W64);
  }

  lemma {:induction false} AlignedRoundTrip(s: seq<bool>, pos: nat, t: IntType, x: nat, ra: nat)
    requires x < ra && 1 < ra <= t.width.Modulus() && CeilLog2(ra) <= t.width.Bits()
    requires ra > 65536 ==> t.Wrap(x) == x
    requires var e := AlignedEnc(pos, t, x, ra); e.ok && At(s, pos, e.bits)
    ensures DecAlignedField(s, pos, ra, t.width.Bits()) == Got(x, pos + |AlignedEnc(pos, t, x, ra).bits|)
  {
    hide At, ToBits, CeilLog2, DecBits, Low, DecAlignedField, BitLen, Word;
    var nBits, w := CeilLog2(ra), t.width.Bits();
    WordBits(t, x, nBits);
    if ra < 256 {
      ReadBackExact(s, pos, x, nBits, w);
      ShortForm(s, pos, ra, w);
    } else if ra <= 65536 {
      OctetForm(s, pos, t, x, ra);
    } else {
      PrefixedForm(s, pos, t, x, ra);
    }
  }

  lemma {:induction false} ShortForm(s: seq<bool>, pos: nat, ra: nat, w: nat)
    requires 1 < ra < 256
    ensures DecAlignedField(s, pos, ra, w) == DecBits(s, pos, CeilLog2(ra), w)
  {
  }

  lemma {:induction false} OctetForm(s: seq<bool>, pos: nat, t: IntType, x: nat, ra: nat)
    requires x < ra && 256 <= ra <= 65536 && ra <= t.width.Modulus() && CeilLog2(ra) <= t.width.Bits()
    requires var nBits := CeilLog2(ra);
             At(s, pos, Zeros(PadLen(pos)) + ToBits(0, 8 * CeilDiv8(nBits) - nBits) + ToBits(Word(t, x), nBits))
    ensures DecAlignedField(s, pos, ra, t.width.Bits()) == Got(x, AlignUp(pos) + 8 * CeilDiv8(CeilLog2(ra)))
  {
    hide At, ToBits, CeilLog2, DecBits, Word, Pow2, Zeros, PadLen, FromBits, AlignUp;
    var nBits, w := CeilLog2(ra), t.width.Bits();
    var octets, p := CeilDiv8(nBits), AlignUp(pos);
    WordBits(t, x, nBits);
    WholeOctets(x, nBits);
    AtSplit3(s, pos, Zeros(PadLen(pos)), ToBits(0, 8 * octets - nBits), ToBits(x, nBits));
    AlignUpIs(pos);
    Pow2Mono(nBits, 8 * octets);
    ReadBackExact(s, p, x, 8 * octets, w);
    AlignUpOctets(p, octets);
  }

  lemma {:induction false} WholeOctets(x: nat, n: nat)
    requires x < Pow2(n)
    ensures ToBits(0, 8 * CeilDiv8(n) - n) + ToBits(x, n) == ToBits(x, 8 * CeilDiv8(n))
  {
    hide ToBits, Pow2, Zeros;
    ToBitsPrefix(x, 8 * CeilDiv8(n) - n, n);
    ToBitsZero(8 * CeilDiv8(n) - n);
  }

  lemma {:induction false} AtSplit3(s: seq<bool>, pos: nat, a: seq<bool>, b: seq<bool>, c: seq<bool>)
    requires At(s, pos, a + b + c)
    ensures At(s, pos, a) && At(s, pos + |a|, b + c)
  {
    hide At;
    assert a + b + c == a + (b + c);
    AtSplit(s, pos, a, b + c);
  }

  lemma {:induction false} AlignUpIs(pos: nat)
    ensures AlignUp(pos) == pos + PadLen(pos)
  {
  }

  lemma {:induction false} AlignUpOctets(p: nat, k: nat)
    requires p % 8 == 0
    ensures AlignUp(p + 8 * k) == p + 8 * k
  {
  }

  lemma {:induction false} PrefixedForm(s: seq<bool>, pos: nat, t: IntType, x: nat, ra: nat)
    requires x < ra && 65536 < ra <= t.width.Modulus() && CeilLog2(ra) <= t.width.Bits() && t.Wrap(x) == x
    requires var lenBits := CeilLog2(CeilDiv8(CeilLog2(ra)));
             && 8 * Octets(t, x) < 64
             && At(s, pos, ToBits(Octets(t, x) - 1, lenBits) + Zeros(PadLen(pos + lenBits)) + ToBits(Word(t, x), 8 * Octets(t, x)))
    ensures DecAlignedField(s, pos, ra, t.width.Bits())
         == Got(x, AlignUp(pos + CeilLog2(CeilDiv8(CeilLog2(ra)))) + 8 * Octets(t, x))
  {
    hide At, ToBits, CeilLog2, DecBits, BitLen, Word, Pow2, CeilDiv8, AlignUp, PadLen, Octets, IntType.Wrap, Zeros;
    PrefixedReads(s, pos, t, x, ra);
  }

  /** Its two fields, one after the other. */
  lemma {:induction false} PrefixedReads(s: seq<bool>, pos: nat, t: IntType, x: nat, ra: nat)
    requires x < ra && 65536 < ra <= t.width.Modulus() && CeilLog2(ra) <= t.width.Bits() && t.Wrap(x) == x
    requires var lenBits := CeilLog2(CeilDiv8(CeilLog2(ra)));
             && 8 * Octets(t, x) < 64
             && At(s, pos, ToBits(Octets(t, x) - 1, lenBits) + Zeros(PadLen(pos + lenBits)) + ToBits(Word(t, x), 8 * Octets(t, x)))
    ensures var lenBits, k := CeilLog2(CeilDiv8(CeilLog2(ra))), Octets(t, x);
            && DecBits(s, pos, lenBits, 32) == Got(k - 1, pos + lenBits)
            && DecBits(s, AlignUp(pos + lenBits), 8 * k, t.width.Bits()) == Got(x, AlignUp(pos + lenBits) + 8 * k)
  {
    hide At, ToBits, CeilLog2, DecBits, Low, BitLen, Word, Pow2, PadLen, IntType.Wrap, Zeros;
    var nBits, k, w := CeilLog2(ra), Octets(t, x), t.width.Bits();
    PrefixFits(ra, w);
    var lenBits := CeilLog2(CeilDiv8(nBits));
    BitLenBound(Max(x, 1), nBits);
    var a, b, c := ToBits(k - 1, lenBits), Zeros(PadLen(pos + lenBits)), ToBits(Word(t, x), 8 * k);
    WordBits(t, x, 8 * k);
    AtSplit(s, pos, a + b, c);
    AtSplit(s, pos, a, b);
    ReadBackExact(s, pos, k - 1, lenBits, 32);
    Pow2Mono(BitLen(Max(x, 1)), 8 * k);
    ReadBackExact(s, AlignUp(pos + lenBits), x, 8 * k, w);
  }

  /** The length field holds every octet count up to that of the whole range. */
  lemma {:induction false} PrefixFits(ra: nat, w: nat)
    requires 65536 < ra && CeilLog2(ra) <= w && w in {8, 16, 32, 64}
    ensures var k := CeilDiv8(CeilLog2(ra));
            k >= 1 && CeilLog2(k) <= 3 && k <= Pow2(CeilLog2(k)) && 8 * k <= w
  {
    var nBits := CeilLog2(ra);
    assert Pow2(16) == 65536 && Pow2(3) == 8;
    if nBits <= 16 {
      Pow2Mono(nBits, 16);
    }
    CeilLog2Bound(CeilDiv8(nBits), 3);
  }

  /** The unaligned decoder answers only with numbers of the range exactly when no
      bit pattern of the field can carry lb past the top of the type: its one test
      is against ub, after the addition has wrapped. */
  lemma {:induction false} UnalignedDecoderInRange(t: IntType, lb: int, ub: int)
    requires Range(t, lb, ub) && lb <= ub
    ensures (forall s, pos | DecConstrained(s, pos, t, lb, ub, false).Got? ::
               lb <= DecConstrained(s, pos, t, lb, ub, false).val)
       <==> lb + Pow2(CeilLog2(ub - lb + 1)) - 1 <= t.Hi()
  {
    hide DecConstrained, CeilLog2, Pow2, IntType.Wrap;
    var k := CeilLog2(ub - lb + 1);
    if lb + Pow2(k) - 1 <= t.Hi() {
      forall s, pos | DecConstrained(s, pos, t, lb, ub, false).Got?
        ensures lb <= DecConstrained(s, pos, t, lb, ub, false).val
      {
        NeverBelow(s, pos, t, lb, ub);
      }
    } else {
      WrapsBelow(t, lb, ub);
    }
  }

  lemma {:induction false} NeverBelow(s: seq<bool>, pos: nat, t: IntType, lb: int, ub: int)
    requires Range(t, lb, ub) && lb <= ub && lb + Pow2(CeilLog2(ub - lb + 1)) - 1 <= t.Hi()
    requires DecConstrained(s, pos, t, lb, ub, false).Got?
    ensures lb <= DecConstrained(s, pos, t, lb, ub, false).val
  {
    hide FromBits, CeilLog2, Pow2, IntType.Wrap;
    if lb < ub {
      WrapAgain(t, DecBits(s, pos, CeilLog2(ub - lb + 1), t.width.Bits()).val, lb);
    }
  }

  lemma {:induction false} WrapsBelow(t: IntType, lb: int, ub: int)
    requires Range(t, lb, ub) && lb <= ub && lb + Pow2(CeilLog2(ub - lb + 1)) - 1 > t.Hi()
    ensures var s := ToBits(t.Hi() + 1 - lb, CeilLog2(ub - lb + 1));
            DecConstrained(s, 0, t, lb, ub, false) == Got(t.Lo(), |s|) && t.Lo() < lb
  {
    hide FromBits, ToBits, CeilLog2, Pow2, DecBits, IntType.Wrap;
    var k, r := CeilLog2(ub - lb + 1), t.Hi() + 1 - lb;
    RangeBits(t, lb, ub);
    PastTheTop(t, lb, ub);
    ReadBackExact(ToBits(r, k), 0, r, k, t.width.Bits());
    WrapAgain(t, r, lb);
  }

  lemma {:induction false} PastTheTop(t: IntType, lb: int, ub: int)
    requires Range(t, lb, ub) && lb <= ub
    requires lb + Pow2(CeilLog2(ub - lb + 1)) - 1 > t.Hi()
    ensures t.Lo() < lb < ub && t.Wrap(t.Hi() + 1) == t.Lo()
  {
    hide Pow2, CeilLog2, IntType.Wrap;
    RangeBits(t, lb, ub);
    ModulusIsPow2(t.width);
    Pow2Mono(CeilLog2(ub - lb + 1), t.width.Bits());
    Pow2Zero();
    CeilLog2Bound(1, 0);
    WrapTop(t);
  }

  lemma {:induction false} Pow2Zero()
    ensures Pow2(0) == 1
  {
  }

  lemma {:induction false} WrapTop(t: IntType)
    ensures t.Wrap(t.Hi() + 1) == t.Lo()
  {
  }

  /** Bits the aligned variant reads for a range of at most 64K numbers. */
  function AlignedWidth(ra: nat): nat
    requires ra > 1
  {
    if ra < 256 then CeilLog2(ra) else 8 * CeilDiv8(CeilLog2(ra))
  }

  /** The ranges that fill the aligned variant's field: up to 64K numbers, the field has one
      width; above, its length admits 4 octets or 8, and only 2^32 numbers fill either. */
  predicate FillsField(ra: nat)
    requires ra > 1
  {
    if ra <= 65536 then ra == Pow2(AlignedWidth(ra)) else ra == 0x1_0000_0000
  }

  /** The aligned decoder has no range test at all: it answers only with numbers of the
      range exactly when they fill its field. */
  lemma {:induction false} AlignedDecoderInRange(t: IntType, lb: int, ub: int)
    requires Range(t, lb, ub) && lb < ub
    ensures (forall s, pos | DecConstrained(s, pos, t, lb, ub, true).Got? ::
               lb <= DecConstrained(s, pos, t, lb, ub, true).val <= ub)
       <==> FillsField(ub - lb + 1)
  {
    hide DecConstrained, CeilLog2, Pow2;
    if ub - lb >= 65536 {
      PrefixedDecoderInRange(t, lb, ub);
      return;
    }
    AlignedWidthFits(t, lb, ub);
    if ub - lb + 1 == Pow2(AlignedWidth(ub - lb + 1)) {
      forall s, pos | DecConstrained(s, pos, t, lb, ub, true).Got?
        ensures lb <= DecConstrained(s, pos, t, lb, ub, true).val <= ub
      {
        FullField(s, pos, t, lb, ub);
      }
    } else {
      GapInField(t, lb, ub);
    }
  }

  lemma {:induction false} PrefixedDecoderInRange(t: IntType, lb: int, ub: int)
    requires Range(t, lb, ub) && ub - lb >= 65536
    ensures (forall s, pos | DecConstrained(s, pos, t, lb, ub, true).Got? ::
               lb <= DecConstrained(s, pos, t, lb, ub, true).val <= ub)
       <==> ub - lb + 1 == 0x1_0000_0000
  {
    hide DecConstrained, CeilLog2, Pow2, IntType.Wrap;
    if ub - lb + 1 == 0x1_0000_0000 {
      forall s, pos | DecConstrained(s, pos, t, lb, ub, true).Got?
        ensures lb <= DecConstrained(s, pos, t, lb, ub, true).val <= ub
      {
        FullWord(s, pos, t, lb, ub);
      }
    } else {
      PrefixedGap(t, lb, ub);
    }
  }

  lemma {:induction false} FullWord(s: seq<bool>, pos: nat, t: IntType, lb: int, ub: int)
    requires Range(t, lb, ub) && ub - lb + 1 == 0x1_0000_0000
    requires DecConstrained(s, pos, t, lb, ub, true).Got?
    ensures lb <= DecConstrained(s, pos, t, lb, ub, true).val <= ub
  {
    hide FromBits, CeilLog2, Pow2, IntType.Wrap, DecBits, AlignUp;
    ModulusIsPow2(W32);
    Pow2Next(31);
    SmallPowers();
    CeilLog2Is(0x1_0000_0000, 32);
    CeilLog2Is(4, 2);
    var l := DecBits(s, pos, 2, 32);
    var d := DecBits(s, AlignUp(l.pos), 8 * (l.val + 1), t.width.Bits());
    Pow2Mono(8 * (l.val + 1), 32);
    WrapAgain(t, d.val, lb);
  }

  lemma {:induction false} SmallPowers()
    ensures Pow2(1) == 2 && Pow2(2) == 4 && Pow2(3) == 8
  {
  }

  lemma {:induction false} CeilLog2Is(x: nat, k: nat)
    requires x >= 1 && x <= Pow2(k) && (k > 0 ==> Pow2(k - 1) < x)
    ensures CeilLog2(x) == k
  {
    hide Pow2, CeilLog2;
    CeilLog2Bound(x, k);
    if CeilLog2(x) < k {
      Pow2Mono(CeilLog2(x), k - 1);
    }
  }

  /** The longest field the length in front of it can announce, in octets. */
  function LongestField(ra: nat): nat
    requires ra > 1
  {
    Pow2(CeilLog2(CeilDiv8(CeilLog2(ra))))
  }

  lemma {:induction false} LongestFieldIs(t: IntType, lb: int, ub: int)
    requires Range(t, lb, ub) && ub - lb >= 65536
    ensures var k := LongestField(ub - lb + 1);
            (k == 4 || k == 8) && CeilLog2(CeilDiv8(CeilLog2(ub - lb + 1))) == (if k == 4 then 2 else 3)
            && 8 * k <= t.width.Bits()
            && (if k == 4 then ub - lb + 1 <= 0x1_0000_0000 else ub - lb + 1 < 0x1_0000_0000_0000_0000)
  {
    hide CeilLog2, Pow2;
    var ra := ub - lb + 1;
    var n := CeilLog2(ra);
    RangeBits(t, lb, ub);
    SmallPowers();
    Pow2Of16();
    ModulusIsPow2(W32);
    if n <= 16 {
      Pow2Mono(n, 16);
    }
    if n <= 32 {
      Pow2Mono(n, 32);
      CeilLog2Is(CeilDiv8(n), 2);
    } else {
      CeilLog2Is(CeilDiv8(n), 3);
    }
  }

  /** A stream whose field holds the size of the range itself. */
  function GapStream(ra: nat): seq<bool>
    requires ra > 1
  {
    var lenBits, k := CeilLog2(CeilDiv8(CeilLog2(ra))), LongestField(ra);
    ToBits(k - 1, lenBits) + Zeros(PadLen(lenBits)) + ToBits(ra, 8 * k)
  }

  lemma {:induction false} PrefixedGap(t: IntType, lb: int, ub: int)
    requires Range(t, lb, ub) && ub - lb >= 65536 && ub - lb + 1 != 0x1_0000_0000
    ensures var d := DecConstrained(GapStream(ub - lb + 1), 0, t, lb, ub, true);
            d.Got? && !(lb <= d.val <= ub)
  {
    hide CeilLog2, Pow2, IntType.Wrap, DecBits, GapStream, LongestField, CeilDiv8;
    var ra := ub - lb + 1;
    LongestFieldIs(t, lb, ub);
    GapRead(ra, LongestField(ra), t.width.Bits());
    WrapAgain(t, ra, lb);
    JustAbove(t, lb, ub);
  }

  lemma {:induction false} GapRead(ra: nat, k: nat, w: nat)
    requires ra > 65536 && k == LongestField(ra) && (k == 4 || k == 8) && 8 * k <= w
    requires CeilLog2(CeilDiv8(CeilLog2(ra))) == if k == 4 then 2 else 3
    requires if k == 4 then ra < 0x1_0000_0000 else ra < 0x1_0000_0000_0000_0000
    ensures DecAlignedField(GapStream(ra), 0, ra, w) == Got(ra, 8 + 8 * k)
  {
    hide CeilLog2, Pow2, DecBits, LongestField, CeilDiv8, ToBits, Zeros;
    var lenBits := if k == 4 then 2 else 3;
    SmallPowers();
    ModulusIsPow2(W32);
    ModulusIsPow2(W64);
    var s := GapStream(ra);
    var a, z, x := ToBits(k - 1, lenBits), Zeros(PadLen(lenBits)), ToBits(ra, 8 * k);
    assert s == a + z + x;
    assert s[..lenBits] == a && s[8..] == x;
    ReadBackExact(s, 0, k - 1, lenBits, 32);
    ReadBackExact(s, 8, ra, 8 * k, w);
  }

  /** Such a stream for the numbers 0 to 65536: the decoder answers 2^32 - 1. */
  lemma {:induction false} PrefixedDecoderLeavesRange()
    ensures DecConstrained(ToBits(3, 2) + Zeros(6) + ToBits(0xFFFF_FFFF, 32), 0, IntType(W32, false), 0, 65536, true)
         == Got(0xFFFF_FFFF, 40)
  {
    hide CeilLog2, Pow2, DecBits, ToBits, Zeros;
    Pow2Of16();
    assert Pow2(17) == 131072 by { Pow2Next(16); }
    CeilLog2Is(65537, 17);
    SmallPowers();
    CeilLog2Is(3, 2);
    ModulusIsPow2(W32);
    var s := ToBits(3, 2) + Zeros(6) + ToBits(0xFFFF_FFFF, 32);
    assert s[..2] == ToBits(3, 2) && s[8..] == ToBits(0xFFFF_FFFF, 32);
    ReadBackExact(s, 0, 3, 2, 32);
    ReadBackExact(s, 8, 0xFFFF_FFFF, 32, 32);
  }

  lemma {:induction false} Pow2Next(n: nat)
    ensures Pow2(n + 1) == 2 * Pow2(n)
  {
  }

  lemma {:induction false} AlignedWidthFits(t: IntType, lb: int, ub: int)
    requires Range(t, lb, ub) && lb < ub && ub - lb < 65536
    ensures var k := AlignedWidth(ub - lb + 1);
            && k <= t.width.Bits()
            && ub - lb + 1 <= Pow2(k) <= t.width.Modulus()
  {
    hide CeilLog2, Pow2;
    var ra := ub - lb + 1;
    RangeBits(t, lb, ub);
    ModulusIsPow2(t.width);
    Pow2Mono(CeilLog2(ra), AlignedWidth(ra));
    Pow2Mono(AlignedWidth(ra), t.width.Bits());
  }

  lemma {:induction false} FullField(s: seq<bool>, pos: nat, t: IntType, lb: int, ub: int)
    requires Range(t, lb, ub) && lb < ub && ub - lb < 65536
    requires ub - lb + 1 == Pow2(AlignedWidth(ub - lb + 1))
    requires DecConstrained(s, pos, t, lb, ub, true).Got?
    ensures lb <= DecConstrained(s, pos, t, lb, ub, true).val <= ub
  {
    hide FromBits, CeilLog2, Pow2, IntType.Wrap;
    var d := DecAlignedField(s, pos, ub - lb + 1, t.width.Bits());
    assert d.val < Pow2(AlignedWidth(ub - lb + 1));
    WrapAgain(t, d.val, lb);
  }

  lemma {:induction false} GapInField(t: IntType, lb: int, ub: int)
    requires Range(t, lb, ub) && lb < ub && ub - lb < 65536
    requires ub - lb + 1 < Pow2(AlignedWidth(ub - lb + 1))
    ensures var s := ToBits(ub - lb + 1, AlignedWidth(ub - lb + 1));
            var d := DecConstrained(s, 0, t, lb, ub, true);
            d.Got? && !(lb <= d.val <= ub)
  {
    hide FromBits, ToBits, CeilLog2, Pow2, DecBits, IntType.Wrap;
    var ra := ub - lb + 1;
    var k := AlignedWidth(ra);
    AlignedWidthFits(t, lb, ub);
    ReadBackExact(ToBits(ra, k), 0, ra, k, t.width.Bits());
    WrapAgain(t, ra, lb);
    JustAbove(t, lb, ub);
  }

  lemma {:induction false} JustAbove(t: IntType, lb: int, ub: int)
    requires t.Holds(lb) && t.Holds(ub) && lb <= ub && ub - lb + 1 < t.width.Modulus()
    ensures !(lb <= t.Wrap(ub + 1) <= ub)
  {
    if ub == t.Hi() {
      WrapTop(t);
    }
  }

  /** Which numbers each variant agrees to encode: all of the range, except that
      the length-prefixed form stops below 2^56 because one packing takes at most
      63 bits. */
  lemma {:induction false} ConstrainedAccepts(pos: nat, t: IntType, n: int, lb: int, ub: int, aligned: bool)
    requires Range(t, lb, ub)
    ensures ConstrainedEnc(pos, t, n, lb, ub, aligned).ok
       <==> lb <= n <= ub && (aligned && ub - lb >= 65536 ==> n - lb < 0x100_0000_0000_0000)
  {
    hide AlignedEnc;
    if lb <= n <= ub && lb < ub && aligned {
      RangeBits(t, lb, ub);
      AlignedAccepts(pos, t, n - lb, ub - lb + 1);
    }
  }

  lemma {:induction false} AlignedAccepts(pos: nat, t: IntType, x: nat, ra: nat)
    requires x < ra && 1 < ra && CeilLog2(ra) <= t.width.Bits()
    requires ra > 65536 ==> t.Wrap(x) == x
    ensures AlignedEnc(pos, t, x, ra).ok <==> (ra > 65536 ==> x < 0x100_0000_0000_0000)
  {
    hide FromBits, ToBits, Pow2, CeilLog2, BitLen, Word;
    if ra <= 65536 {
      Pow2Of16();
      CeilLog2Bound(ra, 16);
    } else {
      PrefixFits(ra, t.width.Bits());
      EightOctets(Max(x, 1));
    }
  }

  lemma {:induction false} Pow2Of16()
    ensures Pow2(16) == 65536
  {
    ModulusIsPow2(W16);
  }

  lemma {:induction false} EightOctets(x: nat)
    requires x >= 1
    ensures CeilDiv8(BitLen(x)) < 8 <==> x < 0x100_0000_0000_0000
  {
    hide Pow2;
    assert Pow2(56) == 0x100_0000_0000_0000 by { ModulusIsPow2(W64); Pow2Add(56, 8); ShlIsProduct(Pow2(56), 8); Pow2Of8(); }
    if x < 0x100_0000_0000_0000 {
      BitLenBound(x, 56);
    } else if BitLen(x) <= 56 {
      Pow2Mono(BitLen(x), 56);
    }
  }

  // ----- normally small number, section 10.6 -----

  function SmallEnc(n: nat): (e: Enc)
    ensures e.Valid()
  {
    if n <= 63 then Field(n, 7) else Field(1, 1).Then(REFUSED)
  }

  function DecSmall(s: seq<bool>, pos: nat, width: nat): Dec<nat> {
    var e := DecBits(s, pos, 1, 8);
    if e.Bad? || e.val != 0 then Bad else DecBits(s, e.pos, 6, width)
  }

  lemma {:induction false} SmallRoundTrip(s: seq<bool>, pos: nat, n: nat, width: nat)
    requires SmallEnc(n).ok && At(s, pos, SmallEnc(n).bits) && width >= 8
    ensures n <= 63 && DecSmall(s, pos, width) == Got(n, pos + 7)
  {
    hide At, ToBits, FromBits, DecBits;
    assert Pow2(6) == 64 && Pow2(1) == 2;
    ToBitsPrefix(n, 1, 6);
    ToBitsZero(1);
    AtSplit(s, pos, ToBits(0, 1), ToBits(n, 6));
    ReadBackExact(s, pos, 0, 1, 8);
    ReadBackExact(s, pos + 1, n, 6, width);
  }

  // ----- enumerations -----

  function EnumEnc(e: nat, nofTypes: nat, nofExts: nat, hasExt: bool): (r: Enc)
    requires nofExts < nofTypes
    ensures r.Valid()
  {
    if e >= nofTypes then REFUSED
    else if !hasExt then Field(e, CeilLog2(nofTypes))
    else
      var root := nofTypes - nofExts;
      Field(if e >= root then 1 else 0, 1)
      .Then(if e >= root then SmallEnc(e - root) else Field(e, CeilLog2(root)))
  }

  function DecEnum(s: seq<bool>, pos: nat, nofTypes: nat, nofExts: nat, hasExt: bool): Dec<nat>
    requires nofExts < nofTypes
  {
    var root := nofTypes - nofExts;
    var d :=
      if !hasExt then DecBits(s, pos, CeilLog2(nofTypes), 32)
      else
        var x := DecBits(s, pos, 1, 8);
        if x.Bad? then Bad
        else if x.val == 0 then DecBits(s, x.pos, CeilLog2(root), 32)
        else
          var y := DecSmall(s, x.pos, 32);
          if y.Bad? then Bad else Got(y.val + root, y.pos);
    if d.Got? && d.val >= nofTypes then Bad else d
  }

  lemma {:induction false} EnumRoundTrip(s: seq<bool>, pos: nat, e: nat, nofTypes: nat, nofExts: nat, hasExt: bool)
    requires nofExts < nofTypes <= 0xFFFF_FFFF
    requires var r := EnumEnc(e, nofTypes, nofExts, hasExt); r.ok && At(s, pos, r.bits)
    ensures DecEnum(s, pos, nofTypes, nofExts, hasExt) == Got(e, pos + |EnumEnc(e, nofTypes, nofExts, hasExt).bits|)
  {
    hide At, ToBits, FromBits, DecBits, Pow2, DecSmall, SmallEnc;
    var root := nofTypes - nofExts;
    EnumWidth(nofTypes);
    EnumWidth(root);
    if !hasExt {
      ReadBackExact(s, pos, e, CeilLog2(nofTypes), 32);
    } else {
      var x := if e >= root then 1 else 0;
      AtSplit(s, pos, ToBits(x, 1), if e >= root then SmallEnc(e - root).bits else ToBits(e, CeilLog2(root)));
      OneBit(s, pos, x);
      if e >= root {
        SmallRoundTrip(s, pos + 1, e - root, 32);
        assert |SmallEnc(e - root).bits| == 7 by { SmallSize(e - root); }
      } else {
        ReadBackExact(s, pos + 1, e, CeilLog2(root), 32);
      }
    }
  }

  lemma {:induction false} OneBit(s: seq<bool>, pos: nat, x: nat)
    requires x <= 1 && At(s, pos, ToBits(x, 1))
    ensures DecBits(s, pos, 1, 8) == Got(x, pos + 1)
  {
    ReadBackExact(s, pos, x, 1, 8);
  }

  lemma {:induction false} SmallSize(n: nat)
    requires SmallEnc(n).ok
    ensures n <= 63 && |SmallEnc(n).bits| == 7
  {
  }

  lemma {:induction false} EnumWidth(n: nat)
    requires 1 <= n <= 0xFFFF_FFFF
    ensures CeilLog2(n) <= 32 && n <= Pow2(CeilLog2(n))
  {
    ModulusIsPow2(W32);
    CeilLog2Bound(n, 32);
  }

  /** Exactly the values of the enumeration whose extension index is at most 63 are
      encoded, and nothing outside the enumeration is ever decoded. */
  lemma {:induction false} EnumAccepts(e: nat, nofTypes: nat, nofExts: nat, hasExt: bool)
    requires nofExts < nofTypes <= 0xFFFF_FFFF
    ensures EnumEnc(e, nofTypes, nofExts, hasExt).ok
       <==> e < nofTypes && (hasExt ==> e < nofTypes - nofExts + 64)
    ensures forall s, pos | DecEnum(s, pos, nofTypes, nofExts, hasExt).Got? ::
              DecEnum(s, pos, nofTypes, nofExts, hasExt).val < nofTypes
  {
    hide At, ToBits, FromBits, CeilLog2, Pow2;
    EnumWidth(nofTypes);
    EnumWidth(nofTypes - nofExts);
  }

  // ----- integer, section 12.2.6 -----

  /** Least k with n <= 2^(8k-1): the two's complement octets of a positive number. */
  function UnconstrainedLen(n: nat): (k: nat)
    requires n >= 1
    ensures k >= 1
  {
    CeilDiv8(CeilLog2(n) + 1)
  }

  predicate LowerBounded(t: IntType, lb: int) { lb != t.Lo() || !t.signed }

  predicate UpperBounded(t: IntType, ub: int) { ub != t.Hi() }

  /** The extension branch and the unbounded branch write the number at its own
      length, whose logarithm the code takes: it must be positive there. */
  predicate LengthTaken(t: IntType, n: int, lb: int, ub: int) {
    !(lb <= n <= ub) || (!LowerBounded(t, lb) && !UpperBounded(t, ub))
  }

  /** The constrained branch: the only one to form the difference of the bounds. */
  predicate Subtracted(t: IntType, n: int, lb: int, ub: int) {
    lb <= n <= ub && LowerBounded(t, lb) && UpperBounded(t, ub)
  }

  function UnconstrainedEnc(pos: nat, n: nat, aligned: bool): (e: Enc)
    requires n >= 1
    ensures e.Valid()
  {
    var l := LengthEnc(pos, UnconstrainedLen(n), aligned);
    l.Then(if aligned then Pad(pos + |l.bits|) else NOTHING).Then(Field(n, 8 * UnconstrainedLen(n)))
  }

  function IntegerEnc(pos: nat, t: IntType, n: int, lb: int, ub: int, hasExt: bool, aligned: bool): (e: Enc)
    requires LengthTaken(t, n, lb, ub) ==> n >= 1 || !(hasExt || lb <= n <= ub)
    ensures e.Valid()
  {
    var within := lb <= n <= ub;
    if !hasExt && !within then REFUSED
    else if hasExt then Field(if within then 0 else 1, 1).Then(IntegerBody(pos + 1, t, n, lb, ub, aligned))
    else NOTHING.Then(IntegerBody(pos, t, n, lb, ub, aligned))
  }

  function IntegerBody(pos: nat, t: IntType, n: int, lb: int, ub: int, aligned: bool): (e: Enc)
    requires LengthTaken(t, n, lb, ub) ==> n >= 1
    ensures e.Valid()
  {
    if Subtracted(t, n, lb, ub) then
      if lb == ub then NOTHING else ConstrainedEnc(pos, t, n, lb, ub, aligned)
    else if LengthTaken(t, n, lb, ub) then UnconstrainedEnc(pos, n, aligned)
    else NOTHING
  }

  function DecUnconstrained(s: seq<bool>, pos: nat, t: IntType, aligned: bool): Dec<int> {
    var l := DecLength(s, pos, aligned);
    if l.Bad? then Bad
    else
      var d := DecBits(s, if aligned then AlignUp(l.pos) else l.pos, 8 * l.val, t.width.Bits());
      if d.Bad? then Bad else Got(t.Wrap(d.val), d.pos)
  }

  /** n0 is what the target held before: two branches report success without ever
      assigning it. */
  function DecInteger(s: seq<bool>, pos: nat, t: IntType, n0: int, lb: int, ub: int, hasExt: bool, aligned: bool): Dec<int> {
    var x := if hasExt then DecBits(s, pos, 1, 8) else Got(0, pos);
    if x.Bad? then Bad
    else
      var within := x.val == 0;
      if within && LowerBounded(t, lb) && UpperBounded(t, ub) then
        if lb == ub then Got(n0, x.pos) else DecConstrained(s, x.pos, t, lb, ub, aligned)
      else if !within || (!LowerBounded(t, lb) && !UpperBounded(t, ub)) then DecUnconstrained(s, x.pos, t, aligned)
      else Got(n0, x.pos)
  }

  lemma {:induction false} UnconstrainedRoundTrip(s: seq<bool>, pos: nat, t: IntType, n: nat, aligned: bool)
    requires 1 <= n <= t.Hi()
    requires var e := UnconstrainedEnc(pos, n, aligned); e.ok && At(s, pos, e.bits)
    ensures DecUnconstrained(s, pos, t, aligned)
         == if 8 * UnconstrainedLen(n) <= t.width.Bits() then Got(n, pos + |UnconstrainedEnc(pos, n, aligned).bits|)
            else Bad
  {
    hide At, ToBits, FromBits, LengthEnc, DecLength, Pow2, CeilLog2, UnconstrainedLen, IntType.Wrap;
    var k := UnconstrainedLen(n);
    var l := LengthEnc(pos, k, aligned);
    var p := if aligned then Zeros(PadLen(pos + |l.bits|)) else [];
    LengthOk(pos, k, aligned);
    AtSplit(s, pos, l.bits + p, ToBits(n, 8 * k));
    AtSplit(s, pos, l.bits, p);
    LengthRoundTrip(s, pos, k, aligned);
    if 8 * k <= t.width.Bits() {
      UnconstrainedFits(n);
      ReadBackExact(s, pos + |l.bits| + |p|, n, 8 * k, t.width.Bits());
    }
  }

  lemma {:induction false} UnconstrainedFits(n: nat)
    requires n >= 1
    ensures n < Pow2(8 * UnconstrainedLen(n))
  {
    hide Pow2, CeilLog2;
    var k := UnconstrainedLen(n);
    Pow2Mono(CeilLog2(n), 8 * k - 1);
    Pow2Strict(8 * k - 1, 8 * k);
  }

  lemma {:induction false} LengthOk(pos: nat, n: nat, aligned: bool)
    ensures LengthEnc(pos, n, aligned).ok <==> if aligned then n <= 65536 else n < 16384
  {
  }

  /** The decoder succeeds without storing anything. */
  predicate LeavesTargetAlone(t: IntType, n: int, lb: int, ub: int) {
    lb <= n <= ub && if LowerBounded(t, lb) then UpperBounded(t, ub) ==> lb == ub else UpperBounded(t, ub)
  }

  /** What decoding an encoded integer yields, branch by branch. */
  lemma {:induction false} IntegerDecoded(s: seq<bool>, pos: nat, t: IntType, n: int, n0: int, lb: int, ub: int, hasExt: bool, aligned: bool)
    requires t.Holds(n) && t.Holds(lb) && t.Holds(ub) && (LengthTaken(t, n, lb, ub) ==> n >= 1)
    requires Subtracted(t, n, lb, ub) ==> Range(t, lb, ub) && (!aligned ==> ub - lb < 0x8000_0000_0000_0000)
    requires var e := IntegerEnc(pos, t, n, lb, ub, hasExt, aligned); e.ok && At(s, pos, e.bits)
    ensures DecInteger(s, pos, t, n0, lb, ub, hasExt, aligned)
         == var end := pos + |IntegerEnc(pos, t, n, lb, ub, hasExt, aligned).bits|;
            if LeavesTargetAlone(t, n, lb, ub) then Got(n0, end)
            else if LengthTaken(t, n, lb, ub) && 8 * UnconstrainedLen(n) > t.width.Bits() then Bad
            else Got(n, end)
  {
    hide At, ToBits, FromBits, DecBits, ConstrainedEnc, DecConstrained, UnconstrainedEnc, DecUnconstrained, UnconstrainedLen, Pow2;
    var within := lb <= n <= ub;
    var x := if hasExt then ToBits(if within then 0 else 1, 1) else [];
    var pos1 := pos + |x|;
    var body := IntegerBody(pos1, t, n, lb, ub, aligned);
    assert IntegerEnc(pos, t, n, lb, ub, hasExt, aligned).bits == x + body.bits;
    AtSplit(s, pos, x, body.bits);
    if hasExt {
      OneBit(s, pos, if within then 0 else 1);
    }
    if Subtracted(t, n, lb, ub) {
      if lb < ub {
        ConstrainedRoundTrip(s, pos1, t, n, lb, ub, aligned);
      }
    } else if LengthTaken(t, n, lb, ub) {
      UnconstrainedRoundTrip(s, pos1, t, n, aligned);
    }
  }

  /** Decoding inverts encoding, whatever the target held before, exactly outside
      three cases: a range of one number, a half-bounded type, and a number that
      needs a sign octet its type has no room for. */
  lemma {:induction false} IntegerRoundTrip(s: seq<bool>, pos: nat, t: IntType, n: int, lb: int, ub: int, hasExt: bool, aligned: bool)
    requires t.Holds(n) && t.Holds(lb) && t.Holds(ub) && (LengthTaken(t, n, lb, ub) ==> n >= 1)
    requires Subtracted(t, n, lb, ub) ==> Range(t, lb, ub) && (!aligned ==> ub - lb < 0x8000_0000_0000_0000)
    requires var e := IntegerEnc(pos, t, n, lb, ub, hasExt, aligned); e.ok && At(s, pos, e.bits)
    ensures (forall n0 :: DecInteger(s, pos, t, n0, lb, ub, hasExt, aligned)
                       == Got(n, pos + |IntegerEnc(pos, t, n, lb, ub, hasExt, aligned).bits|))
       <==> !LeavesTargetAlone(t, n, lb, ub)
            && (LengthTaken(t, n, lb, ub) ==> 8 * UnconstrainedLen(n) <= t.width.Bits())
  {
    hide IntegerEnc, DecInteger, UnconstrainedLen;
    forall n0 {
      IntegerDecoded(s, pos, t, n, n0, lb, ub, hasExt, aligned);
    }
    IntegerDecoded(s, pos, t, n, n + 1, lb, ub, hasExt, aligned);
  }

  /** A signed type without bounds: a positive number is encoded exactly up to 2^55, because
      one packing takes at most 63 bits, and then always comes back. */
  lemma {:induction false} UnboundedIntegerRoundTrip(s: seq<bool>, pos: nat, t: IntType, n: int, n0: int, hasExt: bool, aligned: bool)
    requires t.signed && 1 <= n <= t.Hi()
    ensures IntegerEnc(pos, t, n, t.Lo(), t.Hi(), hasExt, aligned).ok <==> n <= 0x80_0000_0000_0000
    ensures var e := IntegerEnc(pos, t, n, t.Lo(), t.Hi(), hasExt, aligned);
            e.ok && At(s, pos, e.bits) ==>
              DecInteger(s, pos, t, n0, t.Lo(), t.Hi(), hasExt, aligned) == Got(n, pos + |e.bits|)
  {
    hide At, ToBits, FromBits, DecInteger, UnconstrainedLen, UnconstrainedEnc, Pow2;
    UnconstrainedAccepts(if hasExt then pos + 1 else pos, n, aligned);
    SignOctetFits(t, n);
    var e := IntegerEnc(pos, t, n, t.Lo(), t.Hi(), hasExt, aligned);
    if e.ok && At(s, pos, e.bits) {
      IntegerDecoded(s, pos, t, n, n0, t.Lo(), t.Hi(), hasExt, aligned);
    }
  }

  lemma {:induction false} UnconstrainedAccepts(pos: nat, n: nat, aligned: bool)
    requires 1 <= n < 0x8000_0000_0000_0000
    ensures UnconstrainedEnc(pos, n, aligned).ok <==> n <= 0x80_0000_0000_0000
  {
    hide ToBits, Pow2, CeilLog2;
    var c := CeilLog2(n);
    Pow2Of63();
    Pow2Of55();
    CeilLog2Bound(n, 63);
    LengthOk(pos, UnconstrainedLen(n), aligned);
    if n <= 0x80_0000_0000_0000 {
      CeilLog2Bound(n, 55);
    } else if c <= 55 {
      Pow2Mono(c, 55);
    }
  }

  lemma {:induction false} Pow2Of55()
    ensures Pow2(55) == 0x80_0000_0000_0000
  {
    hide Pow2;
    Pow2Of8();
    Pow2Of63();
    Pow2Add(55, 8);
  }

  lemma {:induction false} SignOctetFits(t: IntType, n: nat)
    requires t.signed && 1 <= n <= t.Hi()
    ensures 8 * UnconstrainedLen(n) <= t.width.Bits()
  {
    hide Pow2, CeilLog2;
    var b := t.width.Bits();
    ModulusIsPow2(t.width);
    Pow2Add(b - 1, 1);
    SmallPowers();
    CeilLog2Bound(n, b - 1);
  }

}
