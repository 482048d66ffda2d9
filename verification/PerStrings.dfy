/** Octet strings, bit strings and character strings: formats, decoders on bit
    streams, and how far each round-trips. */
module PerStrings {
  import opened BitSeq
  import opened BitRefs
  import opened CBitRefs
  import opened Wire
  import opened PerFormat

  const UNBOUNDED: nat := 0xFFFF_FFFF

  // ----- runs of equal-width characters -----

  /** The characters of str, b bits each. */
  function CharBits(str: seq<byte>, b: nat): seq<bool> {
    if str == [] then []
    else CharBits(str[..|str| - 1], b) + ToBits(str[|str| - 1], b)
  }

  function DecChars(s: seq<bool>, pos: nat, b: nat, n: nat): (d: Dec<seq<byte>>)
    ensures d.Got? ==> |d.val| == n
  {
    if n == 0 then Got([], pos)
    else
      var front := DecChars(s, pos, b, n - 1);
      if front.Bad? then Bad
      else
        var c := DecBits(s, front.pos, b, 8);
        if c.Bad? then Bad else Got(front.val + [U8(c.val)], c.pos)
  }

  predicate Fit(str: seq<byte>, b: nat) {
    forall i | 0 <= i < |str| :: str[i] < Pow2(b)
  }

  lemma {:induction false} CharBitsAppend(front: seq<byte>, c: byte, b: nat)
    ensures CharBits(front + [c], b) == CharBits(front, b) + ToBits(c, b)
  {
    assert (front + [c])[..|front|] == front;
  }

  lemma {:induction false} DecCharsAppend(s: seq<bool>, pos: nat, b: nat, front: seq<byte>, v: nat)
    requires var d := DecChars(s, pos, b, |front|); d.Got? && DecBits(s, d.pos, b, 8) == Got(v, d.pos + b)
    ensures var d := DecChars(s, pos, b, |front|);
            DecChars(s, pos, b, |front| + 1) == Got(d.val + [U8(v)], d.pos + b)
  {
    hide DecBits, Pow2;
  }

  lemma {:induction false} NoChars(s: seq<bool>, pos: nat, b: nat)
    ensures CharBits([], b) == [] && DecChars(s, pos, b, 0) == Got([], pos)
  {
  }

  /** The low b bits of each character, which is what its field holds. */
  function Cut(str: seq<byte>, b: nat): (r: seq<byte>)
    ensures |r| == |str|
  {
    seq(|str|, i requires 0 <= i < |str| => U8(Low(str[i], b)))
  }

  lemma {:induction false} LowAtMost(v: nat, k: nat)
    ensures Low(v, k) <= v
  {
    if k > 0 {
      LowAtMost(v / 2, k - 1);
    }
  }

  lemma {:induction false} CutOne(c: byte, b: nat)
    ensures U8(Low(c, b)) == c <==> c < Pow2(b)
  {
    hide Low, Pow2;
    LowAtMost(c, b);
    if c < Pow2(b) {
      LowExact(c, b);
    }
  }

  /** Nothing is cut off exactly when every character fits its field. */
  lemma {:induction false} CutExactly(str: seq<byte>, b: nat)
    ensures Cut(str, b) == str <==> Fit(str, b)
  {
    hide Low, Pow2;
    forall i | 0 <= i < |str|
      ensures Cut(str, b)[i] == str[i] <==> str[i] < Pow2(b)
    {
      CutOne(str[i], b);
    }
    if Cut(str, b) == str {
      forall i | 0 <= i < |str|
        ensures str[i] < Pow2(b)
      {
        assert Cut(str, b)[i] == str[i];
      }
    }
  }

  lemma {:induction false} CutAppend(front: seq<byte>, c: byte, b: nat)
    ensures Cut(front + [c], b) == Cut(front, b) + [U8(Low(c, b))]
  {
    hide Low;
  }

  /** Characters of up to 8 bits come back cut to their field, at the encoder's cursor; the
      decoder's target takes no more bits than that. */
  lemma {:induction false} CharsRoundTrip(s: seq<bool>, pos: nat, str: seq<byte>, b: nat)
    requires At(s, pos, CharBits(str, b))
    ensures DecChars(s, pos, b, |str|)
         == if b <= 8 || str == [] then Got(Cut(str, b), pos + |CharBits(str, b)|) else Bad
    ensures Cut(str, b) == str <==> Fit(str, b)
  {
    hide At, ToBits, FromBits, DecBits, Pow2, CharBits, DecChars, Cut, Fit, Low;
    CutExactly(str, b);
    if str == [] {
      NoChars(s, pos, b);
    } else {
      var front, c := str[..|str| - 1], str[|str| - 1];
      assert front + [c] == str;
      CharBitsAppend(front, c, b);
      CutAppend(front, c, b);
      AtSplit(s, pos, CharBits(front, b), ToBits(c, b));
      CharsRoundTrip(s, pos, front, b);
      if b <= 8 {
        ReadBack(s, pos + |CharBits(front, b)|, c, b, 8);
        DecCharsAppend(s, pos, b, front, Low(c, b));
      } else {
        TooWide(s, pos, b, |str|);
      }
    }
  }

  lemma {:induction false} TooWide(s: seq<bool>, pos: nat, b: nat, n: nat)
    requires b > 8 && n > 0
    ensures DecChars(s, pos, b, n).Bad?
  {
  }

  // ----- unbounded octet string -----

  function OctetStringEnc(pos: nat, data: seq<byte>, aligned: bool): (e: Enc)
    ensures e.Valid()
  {
    LengthEnc(pos, |data|, aligned).Then(Checked(CharBits(data, 8)))
  }

  function DecOctetString(s: seq<bool>, pos: nat, aligned: bool): Dec<seq<byte>> {
    var l := DecLength(s, pos, aligned);
    if l.Bad? then Bad else DecChars(s, l.pos, 8, l.val)
  }

  /** Every octet string the encoder accepts comes back from any cursor offset below
      16384 octets, and is refused from there on. */
  lemma {:induction false} OctetStringRoundTrip(s: seq<bool>, pos: nat, data: seq<byte>, aligned: bool)
    requires var e := OctetStringEnc(pos, data, aligned); e.ok && At(s, pos, e.bits)
    ensures DecOctetString(s, pos, aligned)
         == if |data| < 16384 then Got(data, pos + |OctetStringEnc(pos, data, aligned).bits|) else Bad
  {
    hide At, LengthEnc, DecLength, CharBits, DecChars, Pow2, Cut;
    AtSplit(s, pos, LengthEnc(pos, |data|, aligned).bits, CharBits(data, 8));
    LengthRoundTrip(s, pos, |data|, aligned);
    if |data| < 16384 {
      Pow2Of8();
      CharsRoundTrip(s, pos + |LengthEnc(pos, |data|, aligned).bits|, data, 8);
      assert Fit(data, 8);
    }
  }

  // ----- bit string field -----

  function NofOctets(n: nat): nat { CeilDiv8(n) }

  /** The n bits held little-endian by octet in data, most significant first: the
      partial last octet, then each octet down to the first. */
  function BitField(data: seq<byte>, n: nat): (r: seq<bool>)
    requires 0 < n && |data| == NofOctets(n)
    ensures |r| == n
  {
    if n <= 8 then ToBits(data[0], n)
    else BitField(data[1..], n - 8) + ToBits(data[0], 8)
  }

  /** The octets that hold the bits b. */
  function FromBitField(b: seq<bool>): (r: seq<byte>)
    requires |b| > 0
    ensures |r| == NofOctets(|b|)
  {
    if |b| <= 8 then [U8(FromBits(b))]
    else [U8(FromBits(b[|b| - 8..]))] + FromBitField(b[..|b| - 8])
  }

  /** bitstring_utils::get. */
  function GetBit(data: seq<byte>, idx: nat): bool
    requires idx / 8 < |data|
  {
    And(data[idx / 8], Shl(1, idx % 8)) > 0
  }

  lemma {:induction false} BitTest(v: nat, k: nat)
    ensures And(v, Shl(1, k)) > 0 <==> Shr(v, k) % 2 == 1
  {
    AndStep(v, Shl(1, k));
    if k > 0 {
      ShlHalf(1, k);
      BitTest(v / 2, k - 1);
    } else {
      AndZeroRight(v / 2);
    }
  }

  lemma {:induction false} AndZeroRight(v: nat)
    ensures And(v, 0) == 0
  {
  }

  /** The wire order is the order of the bit indices, highest first. */
  lemma {:induction false} BitFieldIsGet(data: seq<byte>, n: nat, i: nat)
    requires i < n && |data| == NofOctets(n)
    ensures BitField(data, n)[i] == GetBit(data, n - 1 - i)
  {
    hide And, Shl, Shr, ToBits;
    var idx := n - 1 - i;
    if n <= 8 {
      BitAt(data[0], n, i);
      BitTest(data[0], idx);
    } else if i < n - 8 {
      BitFieldIsGet(data[1..], n - 8, i);
    } else {
      BitAt(data[0], 8, i - (n - 8));
      BitTest(data[0], idx);
    }
  }

  /** data with the bits above the n-th cleared. */
  function Trim(data: seq<byte>, n: nat): (r: seq<byte>)
    requires 0 < n && |data| == NofOctets(n)
    ensures |r| == |data|
  {
    data[..|data| - 1] + [U8(Low(data[|data| - 1], (n - 1) % 8 + 1))]
  }

  /** Reading the octets back restores the string, stray bits above it dropped. */
  lemma {:induction false} FieldBack(data: seq<byte>, n: nat)
    requires 0 < n && |data| == NofOctets(n)
    ensures FromBitField(BitField(data, n)) == Trim(data, n)
  {
    hide ToBits, FromBits, Low, Pow2, Trim, BitField, FromBitField;
    if n <= 8 {
      OneOctetBack(data, n);
    } else {
      FewerOctets(n);
      FieldBack(data[1..], n - 8);
      FieldBackStep(data, n);
    }
  }

  lemma {:induction false} FieldBackStep(data: seq<byte>, n: nat)
    requires 8 < n && |data| == NofOctets(n) && NofOctets(n - 8) == NofOctets(n) - 1
    requires FromBitField(BitField(data[1..], n - 8)) == Trim(data[1..], n - 8)
    ensures FromBitField(BitField(data, n)) == Trim(data, n)
  {
    hide *;
    BitFieldStep(data, n);
    OctetBack(data[0]);
    FieldStep(BitField(data[1..], n - 8), ToBits(data[0], 8));
    TrimTail(data, n);
  }

  lemma {:induction false} OctetBack(b: byte)
    ensures U8(FromBits(ToBits(b, 8))) == b
  {
    hide FromBits, ToBits, Low, Pow2;
    Pow2Of8();
    FromToBits(b, 8);
    LowExact(b, 8);
  }

  /** And the octets read from bits hold exactly those bits. */
  lemma {:induction false} FieldForth(b: seq<bool>)
    requires |b| > 0
    ensures BitField(FromBitField(b), |b|) == b
    decreases |b|
  {
    hide ToBits, FromBits, BitField, FromBitField, Pow2;
    if |b| <= 8 {
      OneOctetForth(b);
    } else {
      var hi, lo := b[..|b| - 8], b[|b| - 8..];
      FieldForth(hi);
      assert b == hi + lo;
      FieldStep(hi, lo);
      OctetForth(lo);
      BitFieldStep(FromBitField(b), |b|);
    }
  }

  lemma {:induction false} OneOctetForth(b: seq<bool>)
    requires 0 < |b| <= 8
    ensures BitField(FromBitField(b), |b|) == b
  {
    hide ToBits, FromBits, Pow2;
    OctetForth(b);
  }

  lemma {:induction false} OctetForth(b: seq<bool>)
    requires |b| <= 8
    ensures ToBits(U8(FromBits(b)), |b|) == b
  {
    hide ToBits, FromBits, Pow2;
    Pow2Of8();
    Pow2Mono(|b|, 8);
    ToFromBits(b);
  }

  lemma {:induction false} OneOctetBack(data: seq<byte>, n: nat)
    requires 0 < n <= 8 && |data| == NofOctets(n)
    ensures FromBitField(BitField(data, n)) == Trim(data, n)
  {
    hide ToBits, FromBits, Low, Pow2, Trim;
    FromToBits(data[0], n);
    TrimOne(data, n);
  }

  lemma {:induction false} FewerOctets(n: nat)
    requires n > 8
    ensures NofOctets(n - 8) == NofOctets(n) - 1
  {
  }

  lemma {:induction false} BitFieldStep(data: seq<byte>, n: nat)
    requires 8 < n && |data| == NofOctets(n)
    ensures BitField(data, n) == BitField(data[1..], n - 8) + ToBits(data[0], 8)
  {
    hide ToBits;
  }

  lemma {:induction false} FieldStep(hi: seq<bool>, lo: seq<bool>)
    requires |hi| > 0 && |lo| == 8
    ensures FromBitField(hi + lo) == [U8(FromBits(lo))] + FromBitField(hi)
  {
    hide FromBits;
    assert (hi + lo)[|hi|..] == lo && (hi + lo)[..|hi|] == hi;
  }

  lemma {:induction false} TrimOne(data: seq<byte>, n: nat)
    requires 0 < n <= 8 && |data| == NofOctets(n)
    ensures Trim(data, n) == [U8(Low(data[0], n))]
  {
    hide Low;
  }

  lemma {:induction false} TrimTail(data: seq<byte>, n: nat)
    requires 8 < n && |data| == NofOctets(n)
    ensures Trim(data, n) == [data[0]] + Trim(data[1..], n - 8)
  {
    hide Low;
    assert data[..|data| - 1] == [data[0]] + data[1..][..|data| - 2];
  }

  // ----- bit string length prefix -----

  function PrefixEnc(pos: nat, len: nat, lb: nat, ub: nat, hasExt: bool, aligned: bool): (e: Enc)
    ensures Strict(e)
  {
    var within := lb <= len <= ub;
    if (hasExt && ub == UNBOUNDED) || (!within && !hasExt) then REFUSED
    else if hasExt then Field(if within then 0 else 1, 1).Then(PrefixBody(pos + 1, len, lb, ub, aligned))
    else PrefixBody(pos, len, lb, ub, aligned)
  }

  function PrefixBody(pos: nat, len: nat, lb: nat, ub: nat, aligned: bool): (e: Enc)
    ensures Strict(e)
  {
    if lb == ub == len then NOTHING
    else if ub == UNBOUNDED || !(lb <= len <= ub) then
      LengthStrict(pos, len, false);
      LengthEnc(pos, len, false)
    else if lb == ub then REFUSED
    else
      var k := CeilLog2(ub - lb);
      Field(len - lb, k).Then(if aligned then Pad(pos + k) else NOTHING)
  }

  function DecPrefix(s: seq<bool>, pos: nat, lb: nat, ub: nat, hasExt: bool, aligned: bool): Dec<nat> {
    var x := if hasExt then DecBits(s, pos, 1, 8) else Got(0, pos);
    if x.Bad? then Bad else DecPrefixBody(s, x.pos, x.val != 0, lb, ub, aligned)
  }

  function DecPrefixBody(s: seq<bool>, pos: nat, ext: bool, lb: nat, ub: nat, aligned: bool): Dec<nat> {
    if ub == UNBOUNDED || ext then DecLength(s, pos, aligned)
    else if lb == ub then Got(lb, pos)
    else if ub >= 65536 then DecLength(s, pos, aligned)
    else
      var d := DecConstrained(s, pos, UINT32, lb, ub, aligned);
      if d.Bad? then Bad else Got(UINT32.Wrap(d.val), d.pos)
  }

  // ----- bit string -----

  datatype BitString = BitString(n: nat, data: seq<byte>)

  predicate FieldAligned(lb: nat, ub: nat, aligned: bool) { aligned && (lb != ub || ub > 16) }

  function FieldPad(pos: nat, lb: nat, ub: nat, aligned: bool): (e: Enc)
    ensures Strict(e) && e.ok
  {
    if FieldAligned(lb, ub, aligned) then Pad(pos) else NOTHING
  }

  function BitStringEnc(pos: nat, data: seq<byte>, n: nat, lb: nat, ub: nat, hasExt: bool, aligned: bool): (e: Enc)
    requires |data| == NofOctets(n)
    ensures Strict(e)
  {
    var p := PrefixEnc(pos, n, lb, ub, hasExt, aligned);
    p.Then(FieldEnc(pos + |p.bits|, data, n, lb, ub, aligned))
  }

  function FieldEnc(pos: nat, data: seq<byte>, n: nat, lb: nat, ub: nat, aligned: bool): (e: Enc)
    requires |data| == NofOctets(n)
    ensures Strict(e)
  {
    if n == 0 then REFUSED
    else FieldPad(pos, lb, ub, aligned).Then(Checked(BitField(data, n)))
  }

  function DecBitField(s: seq<bool>, pos: nat, n: nat, lb: nat, ub: nat, aligned: bool): Dec<seq<byte>> {
    var q := if FieldAligned(lb, ub, aligned) then AlignUp(pos) else pos;
    if n > 65536 then Bad
    else if n == 0 then Got([], pos)
    else if q + n > |s| then Bad
    else Got(FromBitField(s[q..q + n]), q + n)
  }

  function DecBitString(s: seq<bool>, pos: nat, lb: nat, ub: nat, hasExt: bool, aligned: bool): Dec<BitString> {
    var l := DecPrefix(s, pos, lb, ub, hasExt, aligned);
    if l.Bad? then Bad
    else
      var d := DecBitField(s, l.pos, l.val, lb, ub, aligned);
      if d.Bad? then Bad else Got(BitString(l.val, d.val), d.pos)
  }

  /** When the two ends agree on the length prefix, which a caller can tell from the
      bounds and the cursor: the encoder writes an unbounded length without aligning
      and a bounded one in ceil(log2(ub - lb)) bits; the decoder aligns the former in
      the aligned variant and reads the latter as a constrained whole number. */
  predicate PrefixAgrees(pos: nat, len: nat, lb: nat, ub: nat, hasExt: bool, aligned: bool) {
    var pos1 := pos + if hasExt then 1 else 0;
    if lb == ub == len then len != UNBOUNDED
    else if ub == UNBOUNDED || !(lb <= len <= ub) then len < 16384 && (aligned ==> pos1 % 8 == 0)
    else lb < ub && BoundedAgrees(pos1, lb, ub, aligned)
  }

  /** For a bounded length: equal widths, and in the aligned variant, where ranges of 256
      numbers or more are read in whole octets from a boundary, whole octets from a boundary. */
  predicate BoundedAgrees(pos: nat, lb: nat, ub: nat, aligned: bool)
    requires lb < ub
  {
    && ub < 65536 && SameWidth(ub - lb)
    && (aligned && ub - lb >= 255 ==> pos % 8 == 0 && CeilLog2(ub - lb) % 8 == 0)
  }

  predicate SameWidth(x: nat)
    requires x > 0
  {
    CeilLog2(x) == CeilLog2(x + 1)
  }

  /** The widths of the two bit fields differ exactly when the distance between the bounds is a power of two. */
  lemma {:induction false} SameWidthExactly(x: nat)
    requires x > 0
    ensures SameWidth(x) <==> x != Pow2(CeilLog2(x))
  {
    hide Pow2, CeilLog2;
    var c, d := CeilLog2(x), CeilLog2(x + 1);
    CeilLog2Bound(x, d);
    if x == Pow2(c) {
      if d <= c {
        Pow2Mono(d, c);
      }
    } else {
      CeilLog2Bound(x + 1, c);
    }
  }

  /** A bit string comes back bit for bit, with the stray bits of its last octet dropped,
      wherever the two ends agree on the prefix, exactly up to 64K bits: the encoder knows
      no such limit, and what it makes of a longer string is refused. */
  lemma {:induction false} BitStringRoundTrip(s: seq<bool>, pos: nat, data: seq<byte>, n: nat, lb: nat, ub: nat, hasExt: bool, aligned: bool)
    requires |data| == NofOctets(n)
    requires var e := BitStringEnc(pos, data, n, lb, ub, hasExt, aligned); e.ok && At(s, pos, e.bits)
    requires PrefixAgrees(pos, n, lb, ub, hasExt, aligned)
    ensures n > 0
    ensures DecBitString(s, pos, lb, ub, hasExt, aligned)
         == if n <= 65536 then
              Got(BitString(n, Trim(data, n)), pos + |BitStringEnc(pos, data, n, lb, ub, hasExt, aligned).bits|)
            else Bad
  {
    hide At, PrefixEnc, DecPrefix, PrefixAgrees, FieldEnc, DecBitField, FieldAligned, Trim, AlignUp, NofOctets;
    var p := PrefixEnc(pos, n, lb, ub, hasExt, aligned);
    var end := pos + |p.bits|;
    AtSplit(s, pos, p.bits, FieldEnc(end, data, n, lb, ub, aligned).bits);
    PrefixBack(s, pos, n, lb, ub, hasExt, aligned);
    FieldRead(s, end, DecPrefix(s, pos, lb, ub, hasExt, aligned).pos, data, n, lb, ub, aligned);
  }

  /** The field at end, read from q, which is end or aligns to the same place. */
  lemma {:induction false} FieldRead(s: seq<bool>, end: nat, q: nat, data: seq<byte>, n: nat, lb: nat, ub: nat, aligned: bool)
    requires |data| == NofOctets(n)
    requires var e := FieldEnc(end, data, n, lb, ub, aligned); e.ok && At(s, end, e.bits)
    requires if FieldAligned(lb, ub, aligned) then AlignUp(q) == AlignUp(end) else q == end
    ensures n > 0
    ensures DecBitField(s, q, n, lb, ub, aligned)
         == if n <= 65536 then Got(Trim(data, n), end + |FieldEnc(end, data, n, lb, ub, aligned).bits|) else Bad
  {
    hide At, BitField, FromBitField, Trim, Zeros, PadLen, NofOctets;
    var f := FieldPad(end, lb, ub, aligned);
    AtSplit(s, end, f.bits, BitField(data, n));
    FieldBack(data, n);
    AtIs(s, end + |f.bits|, BitField(data, n));
  }

  /** The decoder finds the length, at the encoder's cursor or, where it will align
      next, at one that aligns to the same place. */
  lemma {:induction false} PrefixBack(s: seq<bool>, pos: nat, len: nat, lb: nat, ub: nat, hasExt: bool, aligned: bool)
    requires var e := PrefixEnc(pos, len, lb, ub, hasExt, aligned); e.ok && At(s, pos, e.bits)
    requires PrefixAgrees(pos, len, lb, ub, hasExt, aligned)
    ensures var d := DecPrefix(s, pos, lb, ub, hasExt, aligned);
            var end := pos + |PrefixEnc(pos, len, lb, ub, hasExt, aligned).bits|;
            && d.Got? && d.val == len
            && (if FieldAligned(lb, ub, aligned) then AlignUp(d.pos) == AlignUp(end) else d.pos == end)
  {
    hide At, ToBits, FromBits, DecBits, PrefixBody, DecPrefixBody, Pow2, AlignUp, CeilLog2;
    var within := lb <= len <= ub;
    var pos1 := pos + if hasExt then 1 else 0;
    if hasExt {
      var x := if within then 0 else 1;
      AtSplit(s, pos, ToBits(x, 1), PrefixBody(pos1, len, lb, ub, aligned).bits);
      OneBit(s, pos, x);
    }
    PrefixBodyBack(s, pos1, len, lb, ub, aligned);
  }

  lemma {:induction false} PrefixBodyBack(s: seq<bool>, pos: nat, len: nat, lb: nat, ub: nat, aligned: bool)
    requires At(s, pos, PrefixBody(pos, len, lb, ub, aligned).bits)
    requires PrefixAgrees(pos, len, lb, ub, false, aligned)
    ensures var d := DecPrefixBody(s, pos, !(lb <= len <= ub), lb, ub, aligned);
            var end := pos + |PrefixBody(pos, len, lb, ub, aligned).bits|;
            && d.Got? && d.val == len
            && (if FieldAligned(lb, ub, aligned) then AlignUp(d.pos) == AlignUp(end) else d.pos == end)
  {
    hide At, PrefixBody, DecLength, DecConstrained, Pow2, CeilLog2, IntType.Wrap;
    if lb == ub == len {
      FixedPrefix(pos, len, aligned);
    } else if ub == UNBOUNDED || !(lb <= len <= ub) {
      UnboundedPrefixBack(s, pos, len, lb, ub, aligned);
    } else {
      if aligned && ub - lb >= 255 {
        OctetPrefixBack(s, pos, len, lb, ub);
      } else {
        BoundedPrefixBack(s, pos, len, lb, ub, aligned);
      }
      assert UINT32.Wrap(len) == len;
    }
  }

  lemma {:induction false} FixedPrefix(pos: nat, len: nat, aligned: bool)
    ensures PrefixBody(pos, len, len, len, aligned) == NOTHING
  {
  }

  lemma {:induction false} UnboundedPrefixBack(s: seq<bool>, pos: nat, len: nat, lb: nat, ub: nat, aligned: bool)
    requires ub == UNBOUNDED || !(lb <= len <= ub)
    requires !(lb == ub == len)
    requires len < 16384 && (aligned ==> pos % 8 == 0)
    requires At(s, pos, PrefixBody(pos, len, lb, ub, aligned).bits)
    ensures DecLength(s, pos, aligned) == Got(len, pos + |PrefixBody(pos, len, lb, ub, aligned).bits|)
  {
    hide At, DecLength, LengthBody;
    if aligned {
      AlignedLengthBody(s, pos, len);
    } else {
      LengthRoundTrip(s, pos, len, false);
    }
  }

  lemma {:induction false} BoundedPrefixBack(s: seq<bool>, pos: nat, len: nat, lb: nat, ub: nat, aligned: bool)
    requires lb <= len <= ub && lb < ub < 65536 && SameWidth(ub - lb) && (aligned ==> ub - lb < 255)
    requires At(s, pos, PrefixBody(pos, len, lb, ub, aligned).bits)
    ensures var d := DecConstrained(s, pos, UINT32, lb, ub, aligned);
            && d == Got(len, pos + CeilLog2(ub - lb))
            && |PrefixBody(pos, len, lb, ub, aligned).bits|
               == CeilLog2(ub - lb) + if aligned then PadLen(pos + CeilLog2(ub - lb)) else 0
  {
    hide At, ToBits, FromBits, CeilLog2, Zeros, PadLen, Pow2, DecConstrained;
    var k := CeilLog2(ub - lb);
    Pow2Of16();
    CeilLog2Bound(ub - lb + 1, 16);
    var x := ToBits(len - lb, k);
    AtSplit(s, pos, x, if aligned then Zeros(PadLen(pos + k)) else []);
    SameConstrained(pos, len, lb, ub, aligned);
    ConstrainedRoundTrip(s, pos, UINT32, len, lb, ub, aligned);
  }

  lemma {:induction false} SameConstrained(pos: nat, len: nat, lb: nat, ub: nat, aligned: bool)
    requires lb <= len <= ub && lb < ub < 65536 && CeilLog2(ub - lb + 1) <= 16 && (aligned ==> ub - lb < 255)
    ensures ConstrainedEnc(pos, UINT32, len, lb, ub, aligned).bits == ToBits(len - lb, CeilLog2(ub - lb + 1))
    ensures ConstrainedEnc(pos, UINT32, len, lb, ub, aligned).ok && Range(UINT32, lb, ub)
  {
    hide ToBits, CeilLog2;
    WordBits(UINT32, len - lb, CeilLog2(ub - lb + 1));
  }

  lemma {:induction false} OctetPrefixBack(s: seq<bool>, pos: nat, len: nat, lb: nat, ub: nat)
    requires lb <= len <= ub && lb < ub && ub - lb >= 255 && BoundedAgrees(pos, lb, ub, true)
    requires At(s, pos, PrefixBody(pos, len, lb, ub, true).bits)
    ensures var k := CeilLog2(ub - lb);
            && DecConstrained(s, pos, UINT32, lb, ub, true) == Got(len, pos + k)
            && |PrefixBody(pos, len, lb, ub, true).bits| == k && (pos + k) % 8 == 0
  {
    hide At, ToBits, FromBits, CeilLog2, Zeros, Pow2, DecConstrained;
    var k := CeilLog2(ub - lb);
    Pow2Of16();
    CeilLog2Bound(ub - lb + 1, 16);
    assert ToBits(len - lb, k) + Zeros(0) == ToBits(len - lb, k) by { NoZeros(); }
    OctetConstrained(pos, len, lb, ub, k);
    ConstrainedRoundTrip(s, pos, UINT32, len, lb, ub, true);
  }

  lemma {:induction false} NoZeros()
    ensures Zeros(0) == []
  {
  }

  lemma {:induction false} OctetConstrained(pos: nat, len: nat, lb: nat, ub: nat, k: nat)
    requires lb <= len <= ub && 255 <= ub - lb < 65536 && ub < 65536
    requires k == CeilLog2(ub - lb + 1) <= 16 && k % 8 == 0 && pos % 8 == 0
    ensures ConstrainedEnc(pos, UINT32, len, lb, ub, true).bits == ToBits(len - lb, k)
    ensures ConstrainedEnc(pos, UINT32, len, lb, ub, true).ok && Range(UINT32, lb, ub)
  {
    hide CeilLog2, Zeros;
    NoZeros();
    WordBits(UINT32, len - lb, k);
    assert ToBits(0, 0) == [];
    assert [] + [] + ToBits(len - lb, k) == ToBits(len - lb, k);
  }

  // ----- where the two ends differ on a bounded length -----

  /** The decoder finds the length, at the encoder's cursor or, where the field behind it is
      aligned, at one that aligns to the same place. */
  ghost predicate PrefixRead(s: seq<bool>, pos: nat, len: nat, lb: nat, ub: nat, aligned: bool) {
    var d := DecPrefixBody(s, pos, false, lb, ub, aligned);
    var end := pos + |PrefixBody(pos, len, lb, ub, aligned).bits|;
    && d.Got? && d.val == len
    && (if aligned then AlignUp(d.pos) == AlignUp(end) else d.pos == end)
  }

  /** Every length between the bounds is read as it was written exactly when the bounds and
      the cursor agree. */
  lemma {:induction false} BoundedPrefixExactly(pos: nat, lb: nat, ub: nat, aligned: bool)
    requires lb < ub < UNBOUNDED
    ensures (forall s, len: nat | lb <= len <= ub && At(s, pos, PrefixBody(pos, len, lb, ub, aligned).bits) ::
               PrefixRead(s, pos, len, lb, ub, aligned))
       <==> BoundedAgrees(pos, lb, ub, aligned)
  {
    hide At, PrefixBody, DecPrefixBody, CeilLog2, AlignUp, PrefixRead;
    if BoundedAgrees(pos, lb, ub, aligned) {
      forall s, len: nat | lb <= len <= ub && At(s, pos, PrefixBody(pos, len, lb, ub, aligned).bits)
        ensures PrefixRead(s, pos, len, lb, ub, aligned)
      {
        BoundedPrefixRead(s, pos, len, lb, ub, aligned);
      }
    } else {
      var s, len := PrefixMisread(pos, lb, ub, aligned);
    }
  }

  lemma {:induction false} BoundedPrefixRead(s: seq<bool>, pos: nat, len: nat, lb: nat, ub: nat, aligned: bool)
    requires lb <= len <= ub && lb < ub < UNBOUNDED && BoundedAgrees(pos, lb, ub, aligned)
    requires At(s, pos, PrefixBody(pos, len, lb, ub, aligned).bits)
    ensures PrefixRead(s, pos, len, lb, ub, aligned)
  {
    hide At, PrefixBody, DecPrefixBody, CeilLog2, AlignUp;
    PrefixBodyBack(s, pos, len, lb, ub, aligned);
  }

  /** Otherwise some length is misread, for one of four reasons. */
  lemma {:induction false} PrefixMisread(pos: nat, lb: nat, ub: nat, aligned: bool) returns (s: seq<bool>, len: nat)
    requires lb < ub < UNBOUNDED && !BoundedAgrees(pos, lb, ub, aligned)
    ensures lb <= len <= ub && At(s, pos, PrefixBody(pos, len, lb, ub, aligned).bits)
    ensures !PrefixRead(s, pos, len, lb, ub, aligned)
  {
    hide At, PrefixBody, CeilLog2, PrefixRead, SameWidth;
    if ub >= 65536 {
      len := ub;
      s := LongestMisread(pos, lb, ub, aligned);
    } else if !SameWidth(ub - lb) {
      s, len := NarrowMisread(pos, lb, ub, aligned);
    } else if pos % 8 != 0 {
      s, len := SkippedMisread(pos, lb, ub);
    } else {
      len := lb + 1;
      s := PaddedMisread(pos, lb, ub);
    }
  }

  /** Above 64K the decoder reads a length determinant, which never yields 16384 or more. */
  lemma {:induction false} LongestMisread(pos: nat, lb: nat, ub: nat, aligned: bool) returns (s: seq<bool>)
    requires lb < ub < UNBOUNDED && ub >= 65536
    ensures At(s, pos, PrefixBody(pos, ub, lb, ub, aligned).bits)
    ensures !PrefixRead(s, pos, ub, lb, ub, aligned)
  {
    hide At, PrefixBody, DecLength, AlignUp;
    var bits := PrefixBody(pos, ub, lb, ub, aligned).bits;
    s := Zeros(pos) + bits + [];
    AtConcat(Zeros(pos), bits, []);
    LengthBelow16K(s, pos, aligned);
  }

  lemma {:induction false} LengthBelow16K(s: seq<bool>, pos: nat, aligned: bool)
    ensures DecLength(s, pos, aligned).Got? ==> DecLength(s, pos, aligned).val < 16384
  {
    hide FromBits, Pow2, Shl;
    Pow2Of8();
    Pow2Of14();
    if aligned {
      var o := DecBits(s, AlignUp(pos), 8, 32);
      if o.Got? && o.val >= 128 {
        ShlIsProduct(o.val - 128, 8);
      }
    } else {
      Pow2Mono(7, 14);
    }
  }

  lemma {:induction false} Pow2Of14()
    ensures Pow2(14) == 16384
  {
  }

  /** If the distance of the bounds is a power of two, both bounds are written alike. */
  lemma {:induction false} NarrowMisread(pos: nat, lb: nat, ub: nat, aligned: bool) returns (s: seq<bool>, len: nat)
    requires lb < ub < 65536 && !SameWidth(ub - lb)
    ensures lb <= len <= ub && At(s, pos, PrefixBody(pos, len, lb, ub, aligned).bits)
    ensures !PrefixRead(s, pos, len, lb, ub, aligned)
  {
    hide At, PrefixBody, DecPrefixBody, AlignUp, CeilLog2, SameWidth;
    var bits := PrefixBody(pos, lb, lb, ub, aligned).bits;
    s := Zeros(pos) + bits + [];
    AtConcat(Zeros(pos), bits, []);
    BoundsWrittenAlike(pos, lb, ub, aligned);
    len := if DecPrefixBody(s, pos, false, lb, ub, aligned).Got? && DecPrefixBody(s, pos, false, lb, ub, aligned).val == lb
           then ub else lb;
  }

  lemma {:induction false} BoundsWrittenAlike(pos: nat, lb: nat, ub: nat, aligned: bool)
    requires lb < ub < 65536 && !SameWidth(ub - lb)
    ensures PrefixBody(pos, ub, lb, ub, aligned) == PrefixBody(pos, lb, lb, ub, aligned)
  {
    hide ToBits, CeilLog2, Pow2, Low, SameWidth;
    var x := ub - lb;
    var k := CeilLog2(x);
    SameWidthExactly(x);
    ShlOfOne(k);
    ShrOfShl(1, 0, k);
    LowExact(0, k);
    ToBitsLow(x, 0, k);
  }

  /** Off the boundary the decoder skips the first bits of the field. */
  lemma {:induction false} SkippedMisread(pos: nat, lb: nat, ub: nat) returns (s: seq<bool>, len: nat)
    requires lb < ub < 65536 && ub - lb >= 255 && pos % 8 != 0
    ensures lb <= len <= ub && At(s, pos, PrefixBody(pos, len, lb, ub, true).bits)
    ensures !PrefixRead(s, pos, len, lb, ub, true)
  {
    hide At, PrefixBody, AlignUp, CeilLog2, DecPrefixBody;
    var bits := PrefixBody(pos, lb, lb, ub, true).bits;
    s := Zeros(pos) + bits + [];
    AtConcat(Zeros(pos), bits, []);
    var high := HighBit(pos, lb, ub);
    AtFlipped(s, pos, bits);
    if DecPrefixBody(s, pos, false, lb, ub, true).Got? && DecPrefixBody(s, pos, false, lb, ub, true).val == lb {
      FirstBitUnread(s, pos, lb, ub);
      s, len := s[pos := true], high;
    } else {
      len := lb;
    }
  }

  lemma {:induction false} AtFlipped(s: seq<bool>, pos: nat, bits: seq<bool>)
    requires At(s, pos, bits) && bits != []
    ensures pos < |s| && At(s[pos := true], pos, bits[0 := true])
  {
    var f := s[pos := true];
    assert f[pos..pos + |bits|] == bits[0 := true];
  }

  /** A length that differs from lb in the first bit of the field alone. */
  lemma {:induction false} HighBit(pos: nat, lb: nat, ub: nat) returns (len: nat)
    requires lb < ub < 65536 && ub - lb >= 255
    ensures lb < len <= ub && PrefixBody(pos, lb, lb, ub, true).bits != []
    ensures PrefixBody(pos, len, lb, ub, true).bits == PrefixBody(pos, lb, lb, ub, true).bits[0 := true]
  {
    hide ToBits, Pow2, CeilLog2, Shl;
    var k := CeilLog2(ub - lb);
    Pow2Of16();
    CeilLog2Bound(ub - lb, 16);
    if k == 0 { Pow2Zero(); }
    len := lb + Pow2(k - 1);
    HighBitAlone(k);
    var pad := Zeros(PadLen(pos + k));
    assert (ToBits(0, k) + pad)[0 := true] == ToBits(0, k)[0 := true] + pad;
  }

  lemma {:induction false} HighBitAlone(k: nat)
    requires k > 0
    ensures ToBits(Pow2(k - 1), k) == ToBits(0, k)[0 := true]
  {
    hide ToBits, Pow2, Shl;
    ShlOfOne(k - 1);
    ToBitsCombine(1, 1, 0, k - 1);
    ToBitsZero(k - 1);
    ToBitsZero(k);
    BitOfFlag(true);
    assert ToBits(0, k)[0 := true] == [true] + Zeros(k - 1);
  }

  lemma {:induction false} FirstBitUnread(s: seq<bool>, pos: nat, lb: nat, ub: nat)
    requires lb < ub < 65536 && ub - lb >= 255 && pos % 8 != 0 && pos < |s|
    ensures DecPrefixBody(s[pos := true], pos, false, lb, ub, true) == DecPrefixBody(s, pos, false, lb, ub, true)
  {
    hide FromBits, CeilLog2, IntType.Wrap;
    var q, n := AlignUp(pos), 8 * CeilDiv8(CeilLog2(ub - lb + 1));
    assert pos < q;
    if q + n <= |s| {
      assert s[pos := true][q..q + n] == s[q..q + n];
    }
  }

  /** On the boundary, but not in whole octets, the padding is read as part of the number. */
  lemma {:induction false} PaddedMisread(pos: nat, lb: nat, ub: nat) returns (s: seq<bool>)
    requires lb < ub < 65536 && ub - lb >= 255 && SameWidth(ub - lb) && pos % 8 == 0 && CeilLog2(ub - lb) % 8 != 0
    ensures At(s, pos, PrefixBody(pos, lb + 1, lb, ub, true).bits)
    ensures CeilLog2(ub - lb) < 16
    ensures DecPrefixBody(s, pos, false, lb, ub, true) == Got(lb + Pow2(16 - CeilLog2(ub - lb)), pos + 16)
    ensures !PrefixRead(s, pos, lb + 1, lb, ub, true)
  {
    hide At, PrefixBody, DecPrefixBody, CeilLog2, Pow2;
    var k := CeilLog2(ub - lb);
    var bits := PrefixBody(pos, lb + 1, lb, ub, true).bits;
    s := Zeros(pos) + bits + [];
    AtConcat(Zeros(pos), bits, []);
    PaddedWidth(ub - lb);
    PaddedBits(pos, lb, ub);
    PaddedNumber(s, pos, lb, ub, k);
  }

  lemma {:induction false} PaddedWidth(x: nat)
    requires 255 <= x < 65536 && SameWidth(x) && CeilLog2(x) % 8 != 0
    ensures 8 < CeilLog2(x) < 16 && CeilLog2(x + 1) == CeilLog2(x)
  {
    hide CeilLog2, Pow2;
    Pow2Of8();
    Pow2Of16();
    CeilLog2Bound(x, 16);
    if CeilLog2(x) < 8 {
      Pow2Next(7);
      Pow2Mono(CeilLog2(x), 7);
    }
  }

  lemma {:induction false} PaddedBits(pos: nat, lb: nat, ub: nat)
    requires lb < ub < 65536 && pos % 8 == 0 && 8 < CeilLog2(ub - lb) < 16
    ensures var k := CeilLog2(ub - lb);
            PrefixBody(pos, lb + 1, lb, ub, true).bits == ToBits(Pow2(16 - k), 16)
            && 2 <= Pow2(16 - k) <= 256
  {
    hide CeilLog2, ToBits, Pow2, Shl;
    var k := CeilLog2(ub - lb);
    ShlOfOne(16 - k);
    ToBitsCombine(1, k, 0, 16 - k);
    ToBitsZero(16 - k);
    SmallPowers();
    Pow2Of8();
    Pow2Mono(1, 16 - k);
    Pow2Mono(16 - k, 8);
    assert PadLen(pos + k) == 16 - k;
  }

  lemma {:induction false} PaddedNumber(s: seq<bool>, pos: nat, lb: nat, ub: nat, k: nat)
    requires lb < ub < 65536 && 255 <= ub - lb && pos % 8 == 0 && 8 < k < 16 && CeilLog2(ub - lb + 1) == k
    requires 2 <= Pow2(16 - k) <= 256 && At(s, pos, ToBits(Pow2(16 - k), 16))
    ensures DecPrefixBody(s, pos, false, lb, ub, true) == Got(lb + Pow2(16 - k), pos + 16)
  {
    hide At, CeilLog2, Pow2, DecAlignedField;
    PaddedField(s, pos, ub - lb + 1, k, Pow2(16 - k));
  }

  lemma {:induction false} PaddedField(s: seq<bool>, pos: nat, ra: nat, k: nat, v: nat)
    requires 256 <= ra <= 65536 && pos % 8 == 0 && 8 < k < 16 && CeilLog2(ra) == k
    requires v <= 256 && At(s, pos, ToBits(v, 16))
    ensures DecAlignedField(s, pos, ra, 32) == Got(v, pos + 16)
  {
    hide At, ToBits, DecBits, CeilLog2, Pow2, AlignUp;
    Pow2Of16();
    ReadBackExact(s, pos, v, 16, 32);
    AlignUpOctets(pos, 0);
    AlignUpOctets(pos, 2);
  }

  /** Lengths of 0 to 300, aligned: written in 9 bits and read in 16, so 1 comes back as 128. */
  lemma {:induction false} NineBitsReadAsSixteen()
    ensures var s := PrefixBody(0, 1, 0, 300, true).bits;
            At(s, 0, s) && DecPrefixBody(s, 0, false, 0, 300, true) == Got(128, 16)
    ensures forall pos :: !BoundedAgrees(pos, 0, 300, true)
  {
    hide At, PrefixBody, DecPrefixBody, CeilLog2, Pow2;
    var s := PrefixBody(0, 1, 0, 300, true).bits;
    AtConcat([], s, []);
    assert [] + s + [] == s;
    Pow2Of8();
    Pow2Next(8);
    Pow2Next(7);
    CeilLog2Is(300, 9);
    CeilLog2Is(301, 9);
    PaddedBits(0, 0, 300);
    PaddedNumber(s, 0, 0, 300, 9);
  }

  /** The unbounded length of an aligned bit string, which the encoder does not align,
      is read as it was written at an octet boundary and nowhere else. */
  lemma {:induction false} UnboundedAlignedPrefixExactly(pos: nat)
    ensures (forall s, len: nat | len < 16384 && At(s, pos, LengthEnc(pos, len, false).bits) ::
               DecLength(s, pos, true) == Got(len, pos + |LengthEnc(pos, len, false).bits|))
       <==> pos % 8 == 0
  {
    hide At, DecLength, LengthBody;
    if pos % 8 == 0 {
      forall s, len: nat | len < 16384 && At(s, pos, LengthEnc(pos, len, false).bits)
        ensures DecLength(s, pos, true) == Got(len, pos + |LengthEnc(pos, len, false).bits|)
      {
        AlignedLengthBody(s, pos, len);
      }
    } else {
      Misaligned(pos);
    }
  }

  lemma {:induction false} Misaligned(pos: nat)
    requires pos % 8 != 0
    ensures var s := Zeros(pos) + LengthEnc(pos, 1, false).bits;
            At(s, pos, LengthEnc(pos, 1, false).bits) && DecLength(s, pos, true).Bad?
  {
    assert LengthEnc(pos, 1, false).bits == ToBits(1, 8);
  }

  // ----- character strings, section 27 -----

  /** Bits per character for the alphabet lb..ub, a power of two when aligned. */
  function CharWidth(lb: nat, ub: nat, aligned: bool): nat
    requires lb <= ub
  {
    var b := CeilLog2(ub - lb + 1);
    if !aligned then b else if b == 0 then 0 else Pow2(CeilLog2(b))
  }

  /** By the size of the longest string in bits, a product taken in 64 bits. */
  predicate StringAligned(b: nat, alb: nat, aub: nat, aligned: bool) {
    var most := UINT64.Wrap(b * aub);
    aligned && (most > 16 || (alb != aub && most == 16))
  }

  predicate LengthEncoded(alb: nat, aub: nat) { alb != aub || aub >= 65536 }

  function BoundedLengthEnc(pos: nat, n: nat, lb: nat, ub: nat, aligned: bool): (e: Enc)
    ensures e.Valid()
  {
    if ub >= 65536 then LengthEnc(pos, UINT32.Wrap(n), aligned)
    else ConstrainedEnc(pos, UINT64, n, lb, ub, aligned)
  }

  function DecBoundedLength(s: seq<bool>, pos: nat, lb: nat, ub: nat, aligned: bool): Dec<nat> {
    if ub >= 65536 then DecLength(s, pos, aligned)
    else
      var d := DecConstrained(s, pos, UINT64, lb, ub, aligned);
      if d.Bad? then Bad else Got(UINT64.Wrap(d.val), d.pos)
  }

  /** Emitted with the return code dropped. */
  function Unchecked(e: Enc): (r: Enc)
    ensures r.Valid()
  {
    Enc(e.bits, 0, true)
  }

  /** Everything after the extension bit: length and alignment unchecked, then the
      characters, each checked. */
  function StringBody(pos: nat, str: seq<byte>, b: nat, alb: nat, aub: nat, octets: bool): (e: Enc)
    ensures e.Valid()
  {
    var l := if LengthEncoded(alb, aub) then BoundedLengthEnc(pos, |str|, alb, aub, octets) else NOTHING;
    var p := if octets then Pad(pos + |l.bits|) else NOTHING;
    Unchecked(l).Then(Unchecked(p).Then(Checked(CharBits(str, b))))
  }

  function StringEnc(pos: nat, str: seq<byte>, lb: nat, ub: nat, alb: nat, aub: nat, ext: bool, aligned: bool): (e: Enc)
    requires lb <= ub
    ensures e.Valid()
  {
    var b := CharWidth(lb, ub, aligned);
    var octets := StringAligned(b, alb, aub, aligned);
    if !(alb <= |str| <= aub) then REFUSED
    else if ext then Field(0, 1).Then(StringBody(pos + 1, str, b, alb, aub, octets))
    else StringBody(pos, str, b, alb, aub, octets)
  }

  /** n0 is the size the target string has beforehand: without an encoded length it
      is the number of characters read. */
  function DecStringBody(s: seq<bool>, pos: nat, n0: nat, b: nat, alb: nat, aub: nat, octets: bool): Dec<seq<byte>> {
    var l := if LengthEncoded(alb, aub) then DecBoundedLength(s, pos, alb, aub, octets) else Got(n0, pos);
    if l.Bad? then Bad
    else DecChars(s, if octets then AlignUp(l.pos) else l.pos, b, l.val)
  }

  function DecString(s: seq<bool>, pos: nat, n0: nat, lb: nat, ub: nat, alb: nat, aub: nat, ext: bool, aligned: bool): Dec<seq<byte>>
    requires lb <= ub
  {
    var b := CharWidth(lb, ub, aligned);
    var octets := StringAligned(b, alb, aub, aligned);
    var x := if ext then DecBits(s, pos, 1, 8) else Got(0, pos);
    if x.Bad? || x.val != 0 then Bad else DecStringBody(s, x.pos, n0, b, alb, aub, octets)
  }

  /** A string comes back at the encoder's cursor with its characters cut to their field,
      and so unchanged exactly if they all fit: always when its length is on the wire, and for a fixed size when the
      target string has that size to begin with.  For upper bounds of 64K or more it does
      so exactly below 16384 characters. */
  lemma {:induction false} StringRoundTrip(s: seq<bool>, pos: nat, str: seq<byte>, n0: nat, lb: nat, ub: nat,
                                           alb: nat, aub: nat, ext: bool, aligned: bool)
    requires lb <= ub
    requires alb <= |str| <= aub && (!LengthEncoded(alb, aub) ==> n0 == |str|)
    requires At(s, pos, StringEnc(pos, str, lb, ub, alb, aub, ext, aligned).bits)
    ensures StringEnc(pos, str, lb, ub, alb, aub, ext, aligned).ok
    ensures var d, b := DecString(s, pos, n0, lb, ub, alb, aub, ext, aligned), CharWidth(lb, ub, aligned);
            if aub >= 65536 && |str| >= 16384 then d.Got? ==> |d.val| != |str|
            else if b > 8 && str != [] then d.Bad?
            else d == Got(Cut(str, b), pos + |StringEnc(pos, str, lb, ub, alb, aub, ext, aligned).bits|)
    ensures Cut(str, CharWidth(lb, ub, aligned)) == str <==> Fit(str, CharWidth(lb, ub, aligned))
  {
    hide At, ToBits, FromBits, DecBits, StringBody, DecStringBody, Pow2, CharWidth, StringAligned, Fit, Cut;
    var b := CharWidth(lb, ub, aligned);
    var octets := StringAligned(b, alb, aub, aligned);
    CutExactly(str, b);
    if ext {
      AtSplit(s, pos, ToBits(0, 1), StringBody(pos + 1, str, b, alb, aub, octets).bits);
      OneBit(s, pos, 0);
      StringBodyBack(s, pos + 1, str, n0, b, alb, aub, octets);
    } else {
      StringBodyBack(s, pos, str, n0, b, alb, aub, octets);
    }
  }

  lemma {:induction false} StringBodyBack(s: seq<bool>, pos: nat, str: seq<byte>, n0: nat, b: nat, alb: nat, aub: nat, octets: bool)
    requires alb <= |str| <= aub && (!LengthEncoded(alb, aub) ==> n0 == |str|)
    requires At(s, pos, StringBody(pos, str, b, alb, aub, octets).bits)
    ensures StringBody(pos, str, b, alb, aub, octets).ok
    ensures var d := DecStringBody(s, pos, n0, b, alb, aub, octets);
            if aub >= 65536 && |str| >= 16384 then d.Got? ==> |d.val| != |str|
            else if b > 8 && str != [] then d.Bad?
            else d == Got(Cut(str, b), pos + |StringBody(pos, str, b, alb, aub, octets).bits|)
  {
    hide At, BoundedLengthEnc, DecBoundedLength, CharBits, DecChars, PadLen, Zeros, Fit, Cut;
    var l := if LengthEncoded(alb, aub) then BoundedLengthEnc(pos, |str|, alb, aub, octets) else NOTHING;
    var p := if octets then Pad(pos + |l.bits|) else NOTHING;
    AtSplit(s, pos, l.bits, p.bits + CharBits(str, b));
    AtSplit(s, pos + |l.bits|, p.bits, CharBits(str, b));
    if LengthEncoded(alb, aub) {
      BoundedLengthBack(s, pos, |str|, alb, aub, octets);
      if aub >= 65536 && |str| >= 16384 {
        return;
      }
    }
    CharsRoundTrip(s, pos + |l.bits| + |p.bits|, str, b);
  }

  lemma {:induction false} BoundedLengthBack(s: seq<bool>, pos: nat, n: nat, lb: nat, ub: nat, aligned: bool)
    requires lb <= n <= ub
    requires At(s, pos, BoundedLengthEnc(pos, n, lb, ub, aligned).bits)
    ensures var d := DecBoundedLength(s, pos, lb, ub, aligned);
            if ub < 65536 || n < 16384 then d == Got(n, pos + |BoundedLengthEnc(pos, n, lb, ub, aligned).bits|)
            else d.Got? ==> d.val != n
  {
    hide At, ConstrainedEnc, DecConstrained, LengthEnc, DecLength;
    if ub >= 65536 {
      LengthBelow16K(s, pos, aligned);
      if n < 16384 {
        LengthOk(pos, n, aligned);
        LengthRoundTrip(s, pos, n, aligned);
      }
      return;
    }
    ConstrainedAccepts(pos, UINT64, n, lb, ub, aligned);
    ConstrainedRoundTrip(s, pos, UINT64, n, lb, ub, aligned);
    assert UINT64.Wrap(n) == n;
  }

  /** A fixed-size string is recovered, cut to its fields, exactly by targets that have its
      size already. */
  lemma {:induction false} FixedSizeNeedsSizedTarget(s: seq<bool>, pos: nat, str: seq<byte>, n0: nat, lb: nat, ub: nat,
                                                     size: nat, ext: bool, aligned: bool)
    requires lb <= ub && CharWidth(lb, ub, aligned) <= 8
    requires |str| == size < 65536
    requires At(s, pos, StringEnc(pos, str, lb, ub, size, size, ext, aligned).bits)
    ensures (exists p: nat :: DecString(s, pos, n0, lb, ub, size, size, ext, aligned)
                           == Got(Cut(str, CharWidth(lb, ub, aligned)), p))
       <==> n0 == size
  {
    hide At, CharBits, DecChars, CharWidth, Fit, StringEnc, Cut;
    if n0 == size {
      StringRoundTrip(s, pos, str, n0, lb, ub, size, size, ext, aligned);
    } else {
      assert DecString(s, pos, n0, lb, ub, size, size, ext, aligned).Got? ==>
        |DecString(s, pos, n0, lb, ub, size, size, ext, aligned).val| == n0;
    }
  }
}
