/** The bits of octet strings, bit strings and character strings, and what the decoders make of
    any stream. */
module PerStringWire {
  import opened BitSeq
  import opened CBitRefs
  import opened Wire
  import opened PerFormat
  import opened PerStrings
  import opened PerWire

  // ----- runs of characters -----

  /** Character i stands in the b bits from i * b on. */
  lemma {:induction false} CharAt(str: seq<byte>, b: nat, i: nat)
    requires i < |str|
    ensures |CharBits(str, b)| == |str| * b && i * b + b <= |str| * b
    ensures CharBits(str, b)[i * b..i * b + b] == ToBits(str[i], b)
  {
    hide ToBits, CharBits;
    var k := |str| - 1;
    var front, c := str[..k], str[k];
    assert front + [c] == str;
    CharBitsAppend(front, c, b);
    CharBitsSize(front, b);
    assert |str| * b == k * b + b;
    if i < k {
      CharAt(front, b, i);
      assert (CharBits(front, b) + ToBits(c, b))[i * b..i * b + b] == CharBits(front, b)[i * b..i * b + b];
    }
  }

  lemma {:induction false} CharBitsSize(str: seq<byte>, b: nat)
    ensures |CharBits(str, b)| == |str| * b
  {
    hide ToBits;
    if str != [] {
      CharBitsSize(str[..|str| - 1], b);
      assert |str| * b == (|str| - 1) * b + b;
    }
  }

  lemma {:induction false} CharsOnWire(str: seq<byte>, b: nat)
    ensures |CharBits(str, b)| == |str| * b
    ensures forall i | 0 <= i < |str| ::
              0 <= i * b <= i * b + b <= |str| * b && CharBits(str, b)[i * b..i * b + b] == ToBits(str[i], b)
  {
    hide ToBits, CharBits;
    CharBitsSize(str, b);
    forall i | 0 <= i < |str|
      ensures 0 <= i * b <= i * b + b <= |str| * b && CharBits(str, b)[i * b..i * b + b] == ToBits(str[i], b)
    {
      CharAt(str, b, i);
    }
  }

  lemma {:induction false} CharsAreOctets(str: seq<byte>)
    ensures CharBits(str, 8) == OctetBits(str)
  {
    hide ToBits;
    if str != [] {
      CharsAreOctets(str[..|str| - 1]);
    }
  }

  /** From any stream with room for them, n characters are those whose fields are the next
      n * b bits; a field of more than 8 bits is refused. */
  lemma {:induction false} CharsDecoded(s: seq<bool>, pos: nat, b: nat, n: nat)
    requires pos <= |s|
    ensures var d := DecChars(s, pos, b, n);
            if n == 0 || (b <= 8 && pos + n * b <= |s|) then
              && d.Got? && d.pos == pos + n * b <= |s| && |d.val| == n
              && CharBits(d.val, b) == s[pos..d.pos] && Fit(d.val, b)
            else d.Bad?
  {
    hide ToBits, FromBits, CharBits, DecChars, Pow2;
    if n == 0 {
      NoChars(s, pos, b);
    } else {
      CharsDecoded(s, pos, b, n - 1);
      assert n * b == (n - 1) * b + b;
      LastChar(s, pos, b, n, (n - 1) * b);
    }
  }

  /** m is the size of the characters before the last. */
  lemma {:induction false} LastChar(s: seq<bool>, pos: nat, b: nat, n: nat, m: nat)
    requires pos <= |s| && n > 0
    requires var d := DecChars(s, pos, b, n - 1);
             if n == 1 || (b <= 8 && pos + m <= |s|) then
               && d.Got? && d.pos == pos + m <= |s| && |d.val| == n - 1
               && CharBits(d.val, b) == s[pos..d.pos] && Fit(d.val, b)
             else d.Bad?
    ensures var d := DecChars(s, pos, b, n);
            if b <= 8 && pos + m + b <= |s| then
              && d.Got? && d.pos == pos + m + b && |d.val| == n
              && CharBits(d.val, b) == s[pos..d.pos] && Fit(d.val, b)
            else d.Bad?
  {
    hide ToBits, FromBits, CharBits, Pow2;
    var d := DecChars(s, pos, b, n - 1);
    if b <= 8 && pos + m + b <= |s| {
      OneMoreChar(s, pos, d.pos, b, d.val);
    }
  }

  lemma {:induction false} OneMoreChar(s: seq<bool>, pos: nat, p: nat, b: nat, front: seq<byte>)
    requires pos <= p && p + b <= |s| && b <= 8
    requires CharBits(front, b) == s[pos..p] && Fit(front, b)
    ensures var all := front + [U8(FromBits(s[p..p + b]))]; CharBits(all, b) == s[pos..p + b] && Fit(all, b)
  {
    hide ToBits, FromBits, CharBits, Pow2;
    var c := s[p..p + b];
    Pow2Of8();
    Pow2Mono(b, 8);
    ToFromBits(c);
    CharBitsAppend(front, FromBits(c), b);
    assert s[pos..p + b] == s[pos..p] + c;
  }

  // ----- octet string -----

  /** The length determinant, then the octets. */
  lemma {:induction false} OctetStringOnWire(pos: nat, data: seq<byte>, aligned: bool)
    ensures var e := OctetStringEnc(pos, data, aligned);
            && (e.ok <==> if aligned then |data| <= 65536 else |data| < 16384)
            && e.bits == LengthEnc(pos, |data|, aligned).bits + if e.ok then OctetBits(data) else []
  {
    hide LengthEnc, CharBits;
    LengthOk(pos, |data|, aligned);
    CharsAreOctets(data);
    assert LengthEnc(pos, |data|, aligned).bits + [] == LengthEnc(pos, |data|, aligned).bits;
  }

  /** From any stream: as many octets as the length announces, and a refusal where it begins
      with two ones or where the stream ends too soon. */
  lemma {:induction false} OctetStringDecoded(s: seq<bool>, pos: nat, aligned: bool)
    ensures var d, q := DecOctetString(s, pos, aligned), if aligned then AlignUp(pos) else pos;
            var h := if q < |s| && s[q] then 2 else 1;
            if q + 8 * h > |s| || (s[q] && s[q + 1]) then d.Bad?
            else
              var a, n := q + 8 * h, FromBits(s[q + h..q + 8 * h]);
              if a + 8 * n > |s| then d.Bad?
              else d.Got? && d.pos == a + 8 * n && OctetBits(d.val) == s[a..a + 8 * n]
  {
    hide FromBits, DecLength, CharBits, DecChars, AlignUp, OctetBits, Fit;
    var l := DecLength(s, pos, aligned);
    LengthDecoded(s, pos, aligned);
    if l.Got? {
      CharsDecoded(s, l.pos, 8, l.val);
      var d := DecChars(s, l.pos, 8, l.val);
      if d.Got? {
        CharsAreOctets(d.val);
      }
    }
  }

  // ----- bit string -----

  /** The length prefix: nothing for the one length allowed, the unaligned determinant without an
      upper bound or outside the bounds, and otherwise the distance from lb in the least width
      for ub - lb numbers, padded to an octet boundary in the aligned variant. */
  lemma {:induction false} PrefixOnWire(pos: nat, len: nat, lb: nat, ub: nat, hasExt: bool, aligned: bool) returns (w: nat)
    requires ub <= 0xFFFF_FFFF
    ensures var e, inside := PrefixEnc(pos, len, lb, ub, hasExt, aligned), lb <= len <= ub;
            var x := if hasExt then [!inside] else [];
            if (hasExt && ub == 0xFFFF_FFFF) || (!hasExt && !inside) then e == Enc([], 0, false)
            else if lb == ub == len then e.bits == x && e.ok
            else if ub == 0xFFFF_FFFF || !inside then
              var l := LengthEnc(pos + |x|, len, false);
              e.bits == x + l.bits && e.ok == l.ok
            else
              && lb < ub && Least(w, ub - lb) && e.ok
              && e.bits == x + (ToBits(len - lb, w) + Gap(pos + |x| + w, aligned))
  {
    hide ToBits, LengthEnc, PadLen, Zeros, CeilLog2, Pow2;
    w := 0;
    BitOfFlag(true);
    BitOfFlag(false);
    assert forall b: seq<bool> :: b + [] == b;
    if lb < ub {
      w := LeastExists(ub - lb);
      ModulusIsPow2(W32);
      CeilLog2Bound(ub - lb, 32);
    }
  }

  /** The prefix, padding to a boundary in the aligned variant except for strings of one size up
      to 16 bits, and the bits from the highest index down. */
  lemma {:induction false} BitStringOnWire(pos: nat, data: seq<byte>, n: nat, lb: nat, ub: nat, hasExt: bool, aligned: bool)
    returns (field: seq<bool>)
    requires |data| == (n + 7) / 8
    ensures |field| == n && forall i | 0 <= i < n :: field[i] == GetBit(data, n - 1 - i)
    ensures var e, p := BitStringEnc(pos, data, n, lb, ub, hasExt, aligned), PrefixEnc(pos, n, lb, ub, hasExt, aligned);
            e.ok == (p.ok && n > 0) && e.bits == p.bits +
              if p.ok && n > 0 then Gap(pos + |p.bits|, aligned && (lb != ub || ub > 16)) + field else []
  {
    hide BitField, GetBit, BitStringEnc, PrefixEnc, Gap;
    field := if n > 0 then BitField(data, n) else [];
    FieldByIndex(data, n, field);
    BitStringParts(pos, data, n, lb, ub, hasExt, aligned, field);
  }

  lemma {:induction false} FieldByIndex(data: seq<byte>, n: nat, field: seq<bool>)
    requires |data| == (n + 7) / 8 && NofOctets(n) == |data| && field == if n > 0 then BitField(data, n) else []
    ensures |field| == n && forall i | 0 <= i < n :: field[i] == GetBit(data, n - 1 - i)
  {
    hide BitField, GetBit;
    forall i | 0 <= i < n
      ensures field[i] == GetBit(data, n - 1 - i)
    {
      BitFieldIsGet(data, n, i);
    }
  }

  lemma {:induction false} BitStringParts(pos: nat, data: seq<byte>, n: nat, lb: nat, ub: nat, hasExt: bool, aligned: bool, field: seq<bool>)
    requires |data| == (n + 7) / 8 && NofOctets(n) == |data| && field == if n > 0 then BitField(data, n) else []
    ensures var e, p := BitStringEnc(pos, data, n, lb, ub, hasExt, aligned), PrefixEnc(pos, n, lb, ub, hasExt, aligned);
            e.ok == (p.ok && n > 0) && e.bits == p.bits +
              if p.ok && n > 0 then Gap(pos + |p.bits|, aligned && (lb != ub || ub > 16)) + field else []
  {
    hide PrefixEnc, PadLen, Zeros, BitField;
    assert [] + field == field;
    assert PrefixEnc(pos, n, lb, ub, hasExt, aligned).bits + [] == PrefixEnc(pos, n, lb, ub, hasExt, aligned).bits;
  }

  /** The decoder of the prefix on any stream: a set extension bit, or no upper bound, announces a
      length determinant, one length alone needs nothing, and 65536 or more are a determinant
      again. */
  lemma {:induction false} PrefixStream(s: seq<bool>, pos: nat, lb: nat, ub: nat, hasExt: bool, aligned: bool)
    ensures var d := DecPrefix(s, pos, lb, ub, hasExt, aligned);
            if hasExt && pos >= |s| then d.Bad?
            else
              var p := if hasExt then pos + 1 else pos;
              if (hasExt && s[pos]) || ub == 0xFFFF_FFFF then d == DecLength(s, p, aligned)
              else if lb == ub then d == Got(lb, p)
              else if ub >= 65536 then d == DecLength(s, p, aligned)
              else
                var c := DecConstrained(s, p, UINT32, lb, ub, aligned);
                if c.Bad? then d.Bad? else d == Got(UINT32.Wrap(c.val), c.pos)
  {
    hide FromBits, DecLength, DecConstrained;
    if hasExt && pos < |s| { BitValue(s, pos); }
  }

  /** The field read from any stream: at most 64K bits, from a boundary in the aligned variant
      except for strings of one size up to 16 bits, the first of them at the highest index. */
  lemma {:induction false} FieldDecoded(s: seq<bool>, pos: nat, n: nat, lb: nat, ub: nat, aligned: bool)
    ensures var d := DecBitField(s, pos, n, lb, ub, aligned);
            var q := if aligned && (lb != ub || ub > 16) then AlignUp(pos) else pos;
            if n == 0 then d == Got([], pos)
            else if n > 65536 || q + n > |s| then d.Bad?
            else
              && d.Got? && d.pos == q + n && |d.val| == (n + 7) / 8
              && forall i | 0 <= i < n :: GetBit(d.val, i) == s[q + n - 1 - i]
  {
    hide AlignUp, FromBitField, GetBit;
    var q := if aligned && (lb != ub || ub > 16) then AlignUp(pos) else pos;
    if 0 < n <= 65536 && q + n <= |s| {
      FieldIndices(s[q..q + n]);
    }
  }

  lemma {:induction false} FieldIndices(b: seq<bool>)
    requires |b| > 0
    ensures var data := FromBitField(b);
            |data| == (|b| + 7) / 8 && forall i | 0 <= i < |b| :: GetBit(data, i) == b[|b| - 1 - i]
  {
    hide BitField, FromBitField, GetBit;
    var data := FromBitField(b);
    FieldForth(b);
    forall i | 0 <= i < |b|
      ensures GetBit(data, i) == b[|b| - 1 - i]
    {
      BitFieldIsGet(data, |b|, |b| - 1 - i);
    }
  }

  // ----- character strings, section 27 -----

  /** The bits per character: the least width for the alphabet, in the aligned variant raised to
      the least power of two from there on, and none for an alphabet of one character. */
  ghost predicate CharacterWidth(w: nat, alphabet: nat, aligned: bool) {
    if !aligned then Least(w, alphabet)
    else if alphabet == 1 then w == 0
    else exists v, u :: Least(v, alphabet) && Least(u, v) && w == Pow2(u)
  }

  lemma {:induction false} CharacterWidthIs(lb: nat, ub: nat, aligned: bool)
    requires lb <= ub
    ensures CharacterWidth(CharWidth(lb, ub, aligned), ub - lb + 1, aligned)
  {
    hide Pow2, CeilLog2;
    var v := LeastExists(ub - lb + 1);
    Pow2Zero();
    if ub == lb {
      CeilLog2Bound(1, 0);
    } else if aligned {
      assert v > 0;
      var u := LeastExists(v);
      assert Least(v, ub - lb + 1) && Least(u, v);
    }
  }

  /** An extension bit of zero, the length unless it is fixed and below 64K, padding if the longest
      string takes more than 16 bits, or 16 bits of a variable number of characters, and the
      characters at their width; what overran in the length or the padding is noticed only by
      the characters. */
  lemma {:induction false} StringOnWire(pos: nat, str: seq<byte>, lb: nat, ub: nat, alb: nat, aub: nat, ext: bool, aligned: bool)
    returns (w: nat, chars: seq<bool>)
    requires lb <= ub
    ensures CharacterWidth(w, ub - lb + 1, aligned)
    ensures |chars| == |str| * w && chars == CharBits(str, w)
    ensures forall i | 0 <= i < |str| ::
              0 <= i * w <= i * w + w <= |str| * w && chars[i * w..i * w + w] == ToBits(str[i], w)
    ensures var e, x := StringEnc(pos, str, lb, ub, alb, aub, ext, aligned), if ext then [false] else [];
            var most, p := w * aub % 0x1_0000_0000_0000_0000, pos + |x|;
            var octets := aligned && (most > 16 || (most == 16 && alb != aub));
            var l := if alb == aub < 65536 then []
                     else if aub >= 65536 then LengthEnc(p, |str| % 0x1_0000_0000, octets).bits
                     else ConstrainedEnc(p, UINT64, |str|, alb, aub, octets).bits;
            if !(alb <= |str| <= aub) then e == Enc([], 0, false)
            else
              && e.ok && e.bits == x + (l + (Gap(p + |l|, octets) + chars))
              && e.need == if chars == [] then |x| else |e.bits|
  {
    hide *;
    w := CharWidth(lb, ub, aligned);
    chars := CharBits(str, w);
    CharacterWidthIs(lb, ub, aligned);
    CharsOnWire(str, w);
    StringFields(pos, str, lb, ub, alb, aub, ext, aligned);
  }

  lemma {:induction false} StringFields(pos: nat, str: seq<byte>, lb: nat, ub: nat, alb: nat, aub: nat, ext: bool, aligned: bool)
    requires lb <= ub
    ensures var w := CharWidth(lb, ub, aligned);
            var e, x, chars := StringEnc(pos, str, lb, ub, alb, aub, ext, aligned), if ext then [false] else [], CharBits(str, w);
            var most, p := w * aub % 0x1_0000_0000_0000_0000, pos + |x|;
            var octets := aligned && (most > 16 || (most == 16 && alb != aub));
            var l := if alb == aub < 65536 then []
                     else if aub >= 65536 then LengthEnc(p, |str| % 0x1_0000_0000, octets).bits
                     else ConstrainedEnc(p, UINT64, |str|, alb, aub, octets).bits;
            if !(alb <= |str| <= aub) then e == Enc([], 0, false)
            else
              && e.ok && e.bits == x + (l + (Gap(p + |l|, octets) + chars))
              && e.need == if chars == [] then |x| else |e.bits|
  {
    hide ToBits, CharBits, CharWidth, LengthEnc, ConstrainedEnc, Gap, CharacterWidth, IntType.Wrap, StringBody, StringAligned;
    var w := CharWidth(lb, ub, aligned);
    AlignedByLongest(w, alb, aub, aligned);
    BitOfFlag(false);
    if alb <= |str| <= aub {
      var p, octets := if ext then pos + 1 else pos, StringAligned(w, alb, aub, aligned);
      StringBodyOnWire(p, str, w, alb, aub, octets);
      var body := StringBody(p, str, w, alb, aub, octets);
      assert [] + body.bits == body.bits;
    }
  }

  lemma {:induction false} StringBodyOnWire(p: nat, str: seq<byte>, w: nat, alb: nat, aub: nat, octets: bool)
    requires alb <= |str| <= aub
    ensures var e, chars := StringBody(p, str, w, alb, aub, octets), CharBits(str, w);
            var l := if alb == aub < 65536 then []
                     else if aub >= 65536 then LengthEnc(p, |str| % 0x1_0000_0000, octets).bits
                     else ConstrainedEnc(p, UINT64, |str|, alb, aub, octets).bits;
            && e.ok && e.bits == l + (Gap(p + |l|, octets) + chars)
            && e.need == if chars == [] then 0 else |e.bits|
  {
    hide CharBits, LengthEnc, ConstrainedEnc, PadLen, Zeros, IntType.Wrap;
    WrapIsMod(|str|);
  }

  lemma {:induction false} AlignedByLongest(w: nat, alb: nat, aub: nat, aligned: bool)
    ensures var most := w * aub % 0x1_0000_0000_0000_0000;
            StringAligned(w, alb, aub, aligned) == (aligned && (most > 16 || (most == 16 && alb != aub)))
  {
    hide IntType.Wrap;
    WrapIsMod(w * aub);
  }

  lemma {:induction false} WrapIsMod(x: nat)
    ensures UINT64.Wrap(x) == x % 0x1_0000_0000_0000_0000 && UINT32.Wrap(x) == x % 0x1_0000_0000
  {
  }

  /** A printable string, with its alphabet of 32 to 122, ends in its characters at 8 bits each
      when aligned and 7 bits when not. */
  lemma {:induction false} PrintableOnWire(pos: nat, str: seq<byte>, alb: nat, aub: nat, ext: bool)
    requires alb <= |str| <= aub
    ensures var e := StringEnc(pos, str, 32, 122, alb, aub, ext, true).bits;
            8 * |str| <= |e| && e[|e| - 8 * |str|..] == OctetBits(str)
    ensures var e := StringEnc(pos, str, 32, 122, alb, aub, ext, false).bits;
            7 * |str| <= |e| && e[|e| - 7 * |str|..] == CharBits(str, 7)
  {
    hide CharBits, OctetBits, StringEnc, CharWidth, LengthEnc, ConstrainedEnc, CharacterWidth;
    Widths91();
    CharsAreOctets(str);
    EndsInCharacters(pos, str, 32, 122, alb, aub, ext, true);
    EndsInCharacters(pos, str, 32, 122, alb, aub, ext, false);
  }

  lemma {:induction false} EndsInCharacters(pos: nat, str: seq<byte>, lb: nat, ub: nat, alb: nat, aub: nat, ext: bool, aligned: bool)
    requires lb <= ub && alb <= |str| <= aub
    ensures var c, e := CharBits(str, CharWidth(lb, ub, aligned)), StringEnc(pos, str, lb, ub, alb, aub, ext, aligned).bits;
            |c| == |str| * CharWidth(lb, ub, aligned) <= |e| && e[|e| - |c|..] == c
  {
    hide ToBits, CharBits, CharWidth, LengthEnc, ConstrainedEnc, BoundedLengthEnc;
    CharBitsSize(str, CharWidth(lb, ub, aligned));
  }

  lemma {:induction false} Widths91()
    ensures CharWidth(32, 122, true) == 8 && CharWidth(32, 122, false) == 7
  {
    hide CeilLog2, Pow2;
    SmallPowers();
    Pow2Next(3);
    Pow2Next(4);
    Pow2Next(5);
    Pow2Next(6);
    CeilLog2Is(91, 7);
    CeilLog2Is(7, 3);
  }

  /** The decoder reads by the same width and alignment, and refuses a set extension bit. */
  lemma {:induction false} StringStream(s: seq<bool>, pos: nat, n0: nat, lb: nat, ub: nat, alb: nat, aub: nat, ext: bool, aligned: bool)
    returns (w: nat)
    requires lb <= ub
    ensures CharacterWidth(w, ub - lb + 1, aligned)
    ensures var d, most := DecString(s, pos, n0, lb, ub, alb, aub, ext, aligned), w * aub % 0x1_0000_0000_0000_0000;
            var octets := aligned && (most > 16 || (most == 16 && alb != aub));
            if ext && (pos >= |s| || s[pos]) then d.Bad?
            else d == DecStringBody(s, if ext then pos + 1 else pos, n0, w, alb, aub, octets)
  {
    hide FromBits, CharWidth, DecStringBody, CharacterWidth, StringAligned;
    w := CharWidth(lb, ub, aligned);
    CharacterWidthIs(lb, ub, aligned);
    AlignedByLongest(w, alb, aub, aligned);
    if ext && pos < |s| { BitValue(s, pos); }
  }

  /** What follows the extension bit: the length as it was announced, or the size the target has
      already where it is fixed, and then as many characters. */
  lemma {:induction false} StringBodyStream(s: seq<bool>, p: nat, n0: nat, w: nat, alb: nat, aub: nat, octets: bool)
    ensures var d := DecStringBody(s, p, n0, w, alb, aub, octets);
            if alb == aub < 65536 then d == DecChars(s, if octets then AlignUp(p) else p, w, n0)
            else if aub >= 65536 then
              var l := DecLength(s, p, octets);
              if l.Bad? then d.Bad? else d == DecChars(s, if octets then AlignUp(l.pos) else l.pos, w, l.val)
            else
              var l := DecConstrained(s, p, UINT64, alb, aub, octets);
              if l.Bad? then d.Bad?
              else d == DecChars(s, if octets then AlignUp(l.pos) else l.pos, w, UINT64.Wrap(l.val))
  {
    hide DecLength, DecConstrained, DecChars, AlignUp;
  }
}
