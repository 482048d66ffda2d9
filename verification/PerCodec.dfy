/** The encoding procedures over the write cursor and the decoding procedures over
    the read cursor, each proved against the wire formats. */
module PerCodec {
  import opened BitSeq
  import opened BitRefs
  import opened CBitRefs
  import opened Wire
  import opened PerFormat
  import PerWire

  /** The return code a procedure gives for e, started after pos bits. */
  function CodeOf(e: Enc, pos: nat, cap: nat): (code: Code)
    ensures code != DecodeFail
  {
    if e.ok && pos + e.need <= cap then Success else EncodeFail
  }

  /** The call wrote what e emits, cut off only by the end of the buffer, left every octet
      past the cursor alone, and reported success exactly when e completes and its checked bits fit. */
  twostate predicate Emits(b: BitRef, e: Enc, code: Code)
    reads b, b.buf
  {
    && b.Appended(e.bits) && b.RestKept()
    && code == CodeOf(e, |old(b.written)|, b.Cap())
  }

  /** Two emissions in a row are the emission of the concatenation. */
  lemma {:induction false} InARow(w: seq<bool>, a: Enc, e: Enc, cap: nat)
    requires |w| <= cap && a.Valid() && e.Valid()
    ensures Fill(Fill(w, a.bits, cap), e.bits, cap) == Fill(w, a.bits + e.bits, cap)
    ensures |w| + |a.bits| <= cap ==> Fill(w, a.bits, cap) == w + a.bits
    ensures |w| + |a.bits| > cap ==> Fill(w, a.bits, cap) == Fill(w, a.bits + e.bits, cap)
  {
    FillAppend(w, a.bits, e.bits, cap);
    assert w + a.bits + e.bits == w + (a.bits + e.bits);
  }

  /** A checked emission a, then e only if a succeeded, is the emission of both. */
  lemma {:induction false} Sequenced(w: seq<bool>, a: Enc, e: Enc, cap: nat)
    requires |w| <= cap && Strict(a) && e.Valid()
    ensures CodeOf(a, |w|, cap) != Success ==>
              && Fill(w, a.Then(e).bits, cap) == Fill(w, a.bits, cap)
              && CodeOf(a.Then(e), |w|, cap) == EncodeFail
    ensures CodeOf(a, |w|, cap) == Success ==>
              && Fill(w, a.bits, cap) == w + a.bits
              && Fill(w, a.Then(e).bits, cap) == Fill(w + a.bits, e.bits, cap)
              && CodeOf(a.Then(e), |w|, cap) == CodeOf(e, |w| + |a.bits|, cap)
  {
    InARow(w, a, e, cap);
  }

  lemma {:induction false} NothingFilled(w: seq<bool>, cap: nat)
    requires |w| <= cap
    ensures Fill(w, [], cap) == w
  {
  }

  /** Whole octets always have room for their own padding. */
  lemma {:induction false} PadFits(pos: nat, cap: nat)
    requires pos <= cap && cap % 8 == 0
    ensures pos + PadLen(pos) <= cap && |Pad(pos).bits| == PadLen(pos)
  {
  }

  method PackField(b: BitRef, v: nat, n: nat) returns (code: Code)
    requires b.Valid()
    modifies b`ptr, b`offset, b`written, b.buf
    ensures Emits(b, Field(v, n), code)
  {
    hide ToBits, Fill, BitRef.Valid;
    code := b.Pack(v, n);
  }

  method PackPad(b: BitRef) returns (code: Code)
    requires b.Valid()
    modifies b`ptr, b`offset, b`written, b.buf
    ensures Emits(b, Pad(|old(b.written)|), code) && code == Success
  {
    hide Fill, BitRef.Valid, PadLen, Zeros;
    PadFits(|b.written|, b.Cap());
    code := b.AlignBytesZero();
  }

  method PackTwo(b: BitRef, u: nat, m: nat, v: nat, n: nat) returns (code: Code)
    requires b.Valid() && m < 64
    modifies b`ptr, b`offset, b`written, b.buf
    ensures Emits(b, Field(u, m).Then(Field(v, n)), code)
  {
    hide ToBits, Fill, BitRef.Valid, CodeOf, Enc.Then;
    Sequenced(b.written, Field(u, m), Field(v, n), b.Cap());
    code := PackField(b, u, m);
    if code != Success { return; }
    code := PackField(b, v, n);
  }

  // ----- length determinant -----

  method PackLengthBody(b: BitRef, val: nat) returns (code: Code)
    requires b.Valid() && val <= 65536
    modifies b`ptr, b`offset, b`written, b.buf
    ensures Emits(b, LengthBody(val), code)
  {
    hide ToBits, Fill, BitRef.Valid;
    ghost var w, cap := b.written, b.Cap();
    if val < 128 {
      code := b.Pack(val, 8);
    } else if val < 16384 {
      code := PackTwo(b, 2, 2, val, 14);
    } else {
      var m := val / 16384;
      InARow(w, Field(3, 2).Then(Field(m, 6)), Field(val - m * 16384, 16), cap);
      code := PackTwo(b, 3, 2, m, 6);
      if code != Success { return; }
      code := b.Pack(val - m * 16384, 16);
    }
  }

  method PackLength(b: BitRef, val: nat, aligned: bool) returns (code: Code)
    requires b.Valid()
    modifies b`ptr, b`offset, b`written, b.buf
    ensures Emits(b, LengthEnc(|old(b.written)|, val, aligned), code)
  {
    hide ToBits, Fill, BitRef.Valid, LengthBody, Zeros, PadLen;
    ghost var w := b.written;
    if !aligned {
      if val >= 16384 {
        code := EncodeFail;
        NothingFilled(w, b.Cap());
        return;
      }
      code := PackLengthBody(b, val);
    } else {
      if val > 65536 {
        code := EncodeFail;
        NothingFilled(w, b.Cap());
        return;
      }
      InARow(w, Pad(|w|), LengthBody(val), b.Cap());
      PadFits(|w|, b.Cap());
      code := b.AlignBytes();
      code := PackLengthBody(b, val);
    }
  }

  /** What a length that cannot be read leaves: the cursor behind the bits that announce the
      fragmented form, with the target as far as it was filled, or at the end. */
  ghost predicate LengthRefused(s: seq<bool>, pos: nat, aligned: bool, val: nat, end: nat) {
    if !aligned then
      if pos + 2 <= |s| && s[pos] && s[pos + 1] then end == pos + 2 && val == 0 else end == |s|
    else
      var o := DecBits(s, AlignUp(pos), 8, 32);
      if o.Got? && o.val >= 192 then end == o.pos && val == o.val - 128 else end == |s|
  }

  method UnpackLength(r: CBitRef, aligned: bool) returns (code: Code, val: nat)
    requires r.Valid()
    modifies r`ptr, r`offset
    ensures r.Valid() && old(r.Pos()) <= r.Pos()
    ensures Reads(DecLength(r.stream, old(r.Pos()), aligned), code, val, r.Pos())
    ensures var s, q := r.stream, if aligned then AlignUp(old(r.Pos())) else old(r.Pos());
            if q + 8 <= |s| && !s[q] then code == Success && val == FromBits(s[q + 1..q + 8]) && r.Pos() == q + 8
            else if q + 16 <= |s| && s[q] && !s[q + 1] then
              code == Success && val == FromBits(s[q + 2..q + 16]) && r.Pos() == q + 16
            else code == DecodeFail
    ensures code != Success ==> LengthRefused(r.stream, old(r.Pos()), aligned, val, r.Pos())
  {
    hide FromBits, CBitRef.Valid, DecLength, LengthRefused;
    PerWire.LengthDecoded(r.stream, r.Pos(), aligned);
    if !aligned {
      code, val := UnpackLengthUnaligned(r);
    } else {
      code, val := UnpackLengthAligned(r);
    }
  }

  method UnpackLengthAligned(r: CBitRef) returns (code: Code, val: nat)
    requires r.Valid()
    modifies r`ptr, r`offset
    ensures r.Valid() && old(r.Pos()) <= r.Pos()
    ensures Reads(DecLength(r.stream, old(r.Pos()), true), code, val, r.Pos())
    ensures code != Success ==> LengthRefused(r.stream, old(r.Pos()), true, val, r.Pos())
  {
    hide FromBits, CBitRef.Valid, Shl, AlignUp;
    code := r.AlignBytes();
    code, val := r.Unpack(8, 32);
    if code != Success || val < 128 { return; }
    val := val - 128;
    if val >= 64 { return DecodeFail, val; }
    var second;
    code, second := r.Unpack(8, 32);
    if code != Success { return; }
    val := Shl(val, 8) + second;
  }

  method UnpackLengthUnaligned(r: CBitRef) returns (code: Code, val: nat)
    requires r.Valid()
    modifies r`ptr, r`offset
    ensures r.Valid() && old(r.Pos()) <= r.Pos()
    ensures Reads(DecLength(r.stream, old(r.Pos()), false), code, val, r.Pos())
    ensures var s, p := r.stream, old(r.Pos()); p + 2 <= |s| && s[p] && s[p + 1] ==> code == DecodeFail
    ensures code != Success ==> LengthRefused(r.stream, old(r.Pos()), false, val, r.Pos())
  {
    hide FromBits, CBitRef.Valid;
    var ext;
    ghost var s, p := r.stream, r.Pos();
    if p < |s| { BitValue(s, p); }
    if p + 1 < |s| { BitValue(s, p + 1); }
    code, ext := r.Unpack(1, 8);
    if code != Success { return code, 0; }
    if ext == 0 {
      code, val := r.Unpack(7, 32);
    } else {
      code, ext := r.Unpack(1, 8);
      if code != Success { return code, 0; }
      if ext != 0 { return DecodeFail, 0; }
      code, val := r.Unpack(14, 32);
    }
  }

  /** The decoding procedure did what the stream decoder says. */
  ghost predicate Reads<T>(d: Dec<T>, code: Code, val: T, pos: nat) {
    match d
    case Got(v, p) => code == Success && val == v && pos == p
    case Bad => code == DecodeFail
  }

  // ----- constrained whole number -----

  method PackConstrained(b: BitRef, t: IntType, n: int, lb: int, ub: int, aligned: bool) returns (code: Code)
    requires b.Valid() && Range(t, lb, ub)
    modifies b`ptr, b`offset, b`written, b.buf
    ensures Emits(b, ConstrainedEnc(|old(b.written)|, t, n, lb, ub, aligned), code)
  {
    hide ToBits, Fill, BitRef.Valid, AlignedEnc, CeilLog2, Word;
    NothingFilled(b.written, b.Cap());
    if ub < lb || n < lb || n > ub {
      return EncodeFail;
    }
    var ra := ub - lb + 1;
    if ra == 1 {
      return Success;
    }
    if !aligned {
      // The return code of the packing is dropped.
      var dropped := b.Pack(Word(t, n - lb), CeilLog2(ra));
      code := Success;
    } else {
      code := PackAligned(b, t, n - lb, ra);
    }
  }

  method PackAligned(b: BitRef, t: IntType, x: int, ra: nat) returns (code: Code)
    requires b.Valid() && ra > 1
    modifies b`ptr, b`offset, b`written, b.buf
    ensures Emits(b, AlignedEnc(|old(b.written)|, t, x, ra), code)
  {
    hide ToBits, Fill, BitRef.Valid, CeilLog2, Word, BitLen, Zeros, PadLen;
    if ra < 256 {
      code := b.Pack(Word(t, x), CeilLog2(ra));
    } else if ra <= 65536 {
      code := PackOctetForm(b, t, x, ra);
    } else {
      code := PackPrefixedForm(b, t, x, ra);
    }
  }

  method PackOctetForm(b: BitRef, t: IntType, x: int, ra: nat) returns (code: Code)
    requires b.Valid() && 256 <= ra <= 65536
    modifies b`ptr, b`offset, b`written, b.buf
    ensures Emits(b, AlignedEnc(|old(b.written)|, t, x, ra), code)
  {
    hide ToBits, Fill, BitRef.Valid, CeilLog2, Word, Zeros, PadLen, Pow2, Enc.Then;
    Pow2Of16();
    CeilLog2Bound(ra, 16);
    LenBitsAreFew(ra);
    OctetFormIs(|b.written|, t, x, ra);
    PadFits(|b.written|, b.Cap());
    InARow(b.written, Pad(|b.written|), OctetField(t, x, CeilLog2(ra)), b.Cap());
    code := b.AlignBytesZero();
    code := PackOctetField(b, t, x, CeilLog2(ra));
  }

  ghost function OctetField(t: IntType, x: int, nBits: nat): (e: Enc)
    requires 0 < nBits <= 16
    ensures e.Valid() && e.ok && e.need == |e.bits| == 8 * CeilDiv8(nBits)
  {
    Field(0, 8 * CeilDiv8(nBits) - nBits).Then(Field(Word(t, x), nBits))
  }

  lemma {:induction false} OctetFormIs(pos: nat, t: IntType, x: int, ra: nat)
    requires 256 <= ra <= 65536 && 0 < CeilLog2(ra) <= 16
    ensures var e := OctetField(t, x, CeilLog2(ra));
            AlignedEnc(pos, t, x, ra) == Enc(Pad(pos).bits + e.bits, |Pad(pos).bits| + e.need, true)
  {
    hide ToBits, CeilLog2, Word, Zeros, PadLen;
    var nBits := CeilLog2(ra);
    ThenAssoc(Pad(pos), Field(0, 8 * CeilDiv8(nBits) - nBits), Field(Word(t, x), nBits));
  }

  /** Zeros and the number, filling whole octets from an octet boundary. */
  method PackOctetField(b: BitRef, t: IntType, x: int, nBits: nat) returns (code: Code)
    requires b.Valid() && |b.written| % 8 == 0 && 0 < nBits <= 16
    modifies b`ptr, b`offset, b`written, b.buf
    ensures Emits(b, OctetField(t, x, nBits), code)
  {
    hide ToBits, BitRef.Valid, Word, Zeros, PadLen;
    var nOctets := CeilDiv8(nBits);
    ghost var pos := |b.written|;
    code := PackTwo(b, 0, nOctets * 8 - nBits, Word(t, x), nBits);
    if code != Success { return; }
    // The cursor is on an octet boundary already.
    AlignedAfter(pos + 8 * nOctets);
    NothingFilled(b.written, b.Cap());
    code := b.AlignBytesZero();
  }

  lemma {:induction false} ThenAssoc(a: Enc, b: Enc, c: Enc)
    requires a.Valid() && b.Valid() && c.Valid()
    ensures a.Then(b).Then(c).bits == a.Then(b.Then(c)).bits && a.Then(b).Then(c).ok == a.Then(b.Then(c)).ok
    ensures b.need > 0 || c.need > 0 || !b.ok ==> a.Then(b).Then(c).need == a.Then(b.Then(c)).need
  {
    assert (a.bits + b.bits) + c.bits == a.bits + (b.bits + c.bits);
  }

  lemma {:induction false} AlignedAfter(pos: nat)
    requires pos % 8 == 0
    ensures PadLen(pos) == 0 && Zeros(0) == []
  {
  }

  method PackPrefixedForm(b: BitRef, t: IntType, x: int, ra: nat) returns (code: Code)
    requires b.Valid() && 65536 < ra
    modifies b`ptr, b`offset, b`written, b.buf
    ensures Emits(b, AlignedEnc(|old(b.written)|, t, x, ra), code)
  {
    hide ToBits, Fill, BitRef.Valid, CeilLog2, Word, Zeros, PadLen, Pow2, Octets, CodeOf, Enc.Then, Field;
    LenBitsAreFew(ra);
    ghost var len := Count(|b.written|, Octets(t, x) - 1, CeilLog2(CeilDiv8(CeilLog2(ra))));
    Sequenced(b.written, len, Field(Word(t, x), 8 * Octets(t, x)), b.Cap());
    code := PackOctetCount(b, Octets(t, x) - 1, CeilLog2(CeilDiv8(CeilLog2(ra))));
    if code != Success { return; }
    code := PackField(b, Word(t, x), 8 * Octets(t, x));
  }

  /** The octet count of the length-prefixed form, up to the octet boundary. */
  ghost function Count(pos: nat, v: nat, n: nat): (e: Enc)
    ensures Strict(e)
  {
    Field(v, n).Then(Pad(pos + n))
  }

  method PackOctetCount(b: BitRef, v: nat, n: nat) returns (code: Code)
    requires b.Valid()
    modifies b`ptr, b`offset, b`written, b.buf
    ensures Emits(b, Count(|old(b.written)|, v, n), code)
  {
    hide ToBits, Fill, BitRef.Valid, Zeros, PadLen, CodeOf, Enc.Then;
    Sequenced(b.written, Field(v, n), Pad(|b.written| + n), b.Cap());
    code := PackField(b, v, n);
    if code != Success { return; }
    assert n < 64 by { FieldCode(v, n, |old(b.written)|, b.Cap()); }
    code := PackPad(b);
  }

  lemma {:induction false} FieldCode(v: nat, n: nat, pos: nat, cap: nat)
    ensures CodeOf(Field(v, n), pos, cap) == if n < 64 && pos + n <= cap then Success else EncodeFail
  {
  }

  lemma {:induction false} LenBitsAreFew(ra: nat)
    requires ra > 1
    ensures CeilLog2(ra) >= 1
  {
  }

  method UnpackConstrained(r: CBitRef, t: IntType, lb: int, ub: int, aligned: bool) returns (code: Code, n: int)
    requires r.Valid() && Range(t, lb, ub)
    modifies r`ptr, r`offset
    ensures r.Valid()
    ensures Reads(DecConstrained(r.stream, old(r.Pos()), t, lb, ub, aligned), code, n, r.Pos())
  {
    hide FromBits, CBitRef.Valid, CeilLog2, IntType.Wrap, DecAlignedField, Pow2;
    n := 0;
    if ub < lb {
      return DecodeFail, n;
    }
    var ra := ub - lb + 1;
    if ra == 1 {
      return Success, lb;
    }
    var raw;
    if !aligned {
      code, raw := r.Unpack(CeilLog2(ra), t.width.Bits());
      if code != Success { return; }
      n := t.Wrap(t.Wrap(raw) + lb);
      if n > ub {
        code := DecodeFail;
      }
    } else {
      code, raw := UnpackAlignedField(r, ra, t.width.Bits());
      if code != Success { return; }
      n := t.Wrap(t.Wrap(raw) + lb);
    }
  }

  method UnpackAlignedField(r: CBitRef, ra: nat, w: nat) returns (code: Code, raw: nat)
    requires r.Valid() && ra > 1
    modifies r`ptr, r`offset
    ensures r.Valid()
    ensures Reads(DecAlignedField(r.stream, old(r.Pos()), ra, w), code, raw, r.Pos())
  {
    hide FromBits, CBitRef.Valid, CeilLog2, PadLen, AlignUp, Pow2;
    LenBitsAreFew(ra);
    var nBits := CeilLog2(ra);
    if ra < 256 {
      code, raw := r.Unpack(nBits, w);
    } else if ra <= 65536 {
      code := r.AlignBytes();
      code, raw := r.Unpack(CeilDiv8(nBits) * 8, w);
      if code != Success { return; }
      code := r.AlignBytes();
    } else {
      var nOctets;
      code, nOctets := r.Unpack(CeilLog2(CeilDiv8(nBits)), 32);
      if code != Success { return code, 0; }
      nOctets := nOctets + 1;
      code := r.AlignBytes();
      code, raw := r.Unpack(nOctets * 8, w);
    }
  }

  // ----- normally small number -----

  method PackSmall(b: BitRef, n: nat) returns (code: Code)
    requires b.Valid()
    modifies b`ptr, b`offset, b`written, b.buf
    ensures Emits(b, SmallEnc(n), code)
  {
    hide ToBits, Fill, BitRef.Valid;
    if n <= 63 {
      code := PackField(b, n, 7);
    } else {
      Sequenced(b.written, Field(1, 1), REFUSED, b.Cap());
      code := PackField(b, 1, 1);
      RefusedCode(b.written, b.Cap());
      code := EncodeFail;
    }
  }

  /** What a normally small number that cannot be read leaves: the target as it was, n0, or
      what a cut-short read put in it. */
  ghost predicate SmallRefused(s: seq<bool>, pos: nat, n0: nat, n: nat, end: nat)
    requires pos <= |s|
  {
    if pos == |s| then n == n0 && end == |s|
    else if s[pos] then n == n0 && end == pos + 1
    else |s| < pos + 7 && n == CutShort(s, pos + 1, 6) && end == |s|
  }

  method UnpackSmall(r: CBitRef, width: nat, n0: nat) returns (code: Code, n: nat)
    requires r.Valid() && width >= 8
    modifies r`ptr, r`offset
    ensures r.Valid()
    ensures Reads(DecSmall(r.stream, old(r.Pos()), width), code, n, r.Pos())
    ensures code != Success ==> SmallRefused(r.stream, old(r.Pos()), n0, n, r.Pos())
  {
    hide FromBits, CBitRef.Valid, CutShort;
    var ext;
    if r.Pos() < |r.stream| { BitValue(r.stream, r.Pos()); }
    code, ext := r.Unpack(1, 8);
    if code != Success { return code, n0; }
    if ext == 0 {
      code, n := r.Unpack(6, width);
    } else {
      return DecodeFail, n0;
    }
  }

  method PackEnum(b: BitRef, e: nat, nofTypes: nat, nofExts: nat, hasExt: bool) returns (code: Code)
    requires b.Valid() && nofExts < nofTypes
    modifies b`ptr, b`offset, b`written, b.buf
    ensures Emits(b, EnumEnc(e, nofTypes, nofExts, hasExt), code)
  {
    hide ToBits, Fill, BitRef.Valid, CeilLog2, Pow2, CodeOf, Enc.Then, SmallEnc, Field;
    if e >= nofTypes {
      RefusedCode(b.written, b.Cap());
      return EncodeFail;
    }
    if hasExt {
      var root := nofTypes - nofExts;
      Sequenced(b.written, Field(if e >= root then 1 else 0, 1),
                if e >= root then SmallEnc(e - root) else Field(e, CeilLog2(root)), b.Cap());
      code := PackField(b, if e >= root then 1 else 0, 1);
      if code != Success { return; }
      if e < root {
        code := PackField(b, e, CeilLog2(root));
      } else {
        code := PackSmall(b, e - root);
      }
    } else {
      code := PackField(b, e, CeilLog2(nofTypes));
    }
  }

  lemma {:induction false} RefusedCode(w: seq<bool>, cap: nat)
    requires |w| <= cap
    ensures Fill(w, [], cap) == w && CodeOf(REFUSED, |w|, cap) == EncodeFail
    ensures CodeOf(NOTHING, |w|, cap) == Success
  {
  }

  method UnpackEnum(r: CBitRef, nofTypes: nat, nofExts: nat, hasExt: bool) returns (code: Code, val: nat)
    requires r.Valid() && nofExts < nofTypes
    modifies r`ptr, r`offset
    ensures r.Valid()
    ensures Reads(DecEnum(r.stream, old(r.Pos()), nofTypes, nofExts, hasExt), code, val, r.Pos())
  {
    hide FromBits, CBitRef.Valid, CeilLog2, DecSmall, Pow2;
    if hasExt {
      var ext;
      code, ext := r.Unpack(1, 8);
      if code != Success { return code, 0; }
      if ext == 0 {
        code, val := r.Unpack(CeilLog2(nofTypes - nofExts), 32);
      } else {
        code, val := UnpackSmall(r, 32, 0);
        val := val + (nofTypes - nofExts);
      }
    } else {
      code, val := r.Unpack(CeilLog2(nofTypes), 32);
    }
    if val >= nofTypes {
      code := DecodeFail;
    }
  }

  // ----- integer -----

  method PackUnconstrained(b: BitRef, n: nat, aligned: bool) returns (code: Code)
    requires b.Valid() && n >= 1
    modifies b`ptr, b`offset, b`written, b.buf
    ensures Emits(b, UnconstrainedEnc(|old(b.written)|, n, aligned), code)
  {
    hide ToBits, Fill, BitRef.Valid, CeilLog2, Pow2, CodeOf, Enc.Then, Field, Pad, LengthEnc, UnconstrainedLen;
    ghost var w, cap := b.written, b.Cap();
    ghost var l := LengthEnc(|w|, UnconstrainedLen(n), aligned);
    ghost var p := if aligned then Pad(|w| + |l.bits|) else NOTHING;
    LengthStrict(|w|, UnconstrainedLen(n), aligned);
    Sequenced(w, l, p, cap);
    ThenStrict(l, p);
    Sequenced(w, l.Then(p), Field(n, 8 * UnconstrainedLen(n)), cap);
    code := PackLength(b, UnconstrainedLen(n), aligned);
    if code != Success { return; }
    if aligned {
      code := PackPad(b);
    } else {
      RefusedCode(b.written, cap);
    }
    code := PackField(b, n, 8 * UnconstrainedLen(n));
  }

  lemma {:induction false} ThenStrict(a: Enc, e: Enc)
    requires Strict(a) && Strict(e)
    ensures Strict(a.Then(e))
  {
  }

  method UnpackUnconstrained(r: CBitRef, t: IntType, aligned: bool) returns (code: Code, n: int)
    requires r.Valid()
    modifies r`ptr, r`offset
    ensures r.Valid()
    ensures Reads(DecUnconstrained(r.stream, old(r.Pos()), t, aligned), code, n, r.Pos())
  {
    hide FromBits, CBitRef.Valid, DecLength, IntType.Wrap, AlignUp;
    n := 0;
    var len, raw;
    code, len := UnpackLength(r, aligned);
    if code != Success { return; }
    if aligned {
      code := r.AlignBytes();
    }
    code, raw := r.Unpack(len * 8, t.width.Bits());
    if code != Success { return; }
    n := t.Wrap(raw);
  }

  method PackInteger(b: BitRef, t: IntType, n: int, lb: int, ub: int, hasExt: bool, aligned: bool) returns (code: Code)
    requires b.Valid() && t.Holds(n) && t.Holds(lb) && t.Holds(ub) && (Subtracted(t, n, lb, ub) ==> Range(t, lb, ub))
    requires LengthTaken(t, n, lb, ub) ==> n >= 1 || !(hasExt || lb <= n <= ub)
    modifies b`ptr, b`offset, b`written, b.buf
    ensures Emits(b, IntegerEnc(|old(b.written)|, t, n, lb, ub, hasExt, aligned), code)
  {
    hide ToBits, Fill, BitRef.Valid, CodeOf, Enc.Then, IntegerBody;
    var within := lb <= n <= ub;
    if !hasExt && !within {
      RefusedCode(b.written, b.Cap());
      return EncodeFail;
    }
    if hasExt {
      Sequenced(b.written, Field(if within then 0 else 1, 1),
                IntegerBody(|b.written| + 1, t, n, lb, ub, aligned), b.Cap());
      code := PackField(b, if within then 0 else 1, 1);
      if code != Success { return; }
    } else {
      NothingThen(IntegerBody(|b.written|, t, n, lb, ub, aligned));
    }
    code := PackIntegerBody(b, t, n, lb, ub, aligned);
  }

  lemma {:induction false} NothingThen(e: Enc)
    ensures NOTHING.Then(e) == e
  {
    assert [] + e.bits == e.bits;
  }

  method PackIntegerBody(b: BitRef, t: IntType, n: int, lb: int, ub: int, aligned: bool) returns (code: Code)
    requires b.Valid() && t.Holds(n) && t.Holds(lb) && t.Holds(ub) && (Subtracted(t, n, lb, ub) ==> Range(t, lb, ub))
    requires LengthTaken(t, n, lb, ub) ==> n >= 1
    modifies b`ptr, b`offset, b`written, b.buf
    ensures Emits(b, IntegerBody(|old(b.written)|, t, n, lb, ub, aligned), code)
  {
    hide Fill, BitRef.Valid, CodeOf, ConstrainedEnc, UnconstrainedEnc;
    RefusedCode(b.written, b.Cap());
    if lb <= n <= ub && LowerBounded(t, lb) && UpperBounded(t, ub) {
      if lb == ub {
        return Success;
      }
      code := PackConstrained(b, t, n, lb, ub, aligned);
    } else if !(lb <= n <= ub) || (!LowerBounded(t, lb) && !UpperBounded(t, ub)) {
      code := PackUnconstrained(b, n, aligned);
    } else {
      // Half-bounded types are not encoded.
      code := Success;
    }
  }

  method UnpackInteger(r: CBitRef, t: IntType, n0: int, lb: int, ub: int, hasExt: bool, aligned: bool) returns (code: Code, n: int)
    requires r.Valid() && t.Holds(lb) && t.Holds(ub)
    requires LowerBounded(t, lb) && UpperBounded(t, ub) ==> Range(t, lb, ub)
    modifies r`ptr, r`offset
    ensures r.Valid()
    ensures Reads(DecInteger(r.stream, old(r.Pos()), t, n0, lb, ub, hasExt, aligned), code, n, r.Pos())
  {
    hide FromBits, CBitRef.Valid, DecConstrained, DecUnconstrained;
    n := n0;
    var within := true;
    if hasExt {
      var ext;
      code, ext := r.Unpack(1, 8);
      if code != Success { return; }
      within := ext == 0;
    }
    code := Success;
    if within && LowerBounded(t, lb) && UpperBounded(t, ub) {
      if lb == ub { return; }
      code, n := UnpackConstrained(r, t, lb, ub, aligned);
    } else if !within || (!LowerBounded(t, lb) && !UpperBounded(t, ub)) {
      code, n := UnpackUnconstrained(r, t, aligned);
    }
  }

  /** An integer type used without bounds of its own. */
  method PackUnconstrainedInteger(b: BitRef, t: IntType, n: int, hasExt: bool, aligned: bool) returns (code: Code)
    requires b.Valid() && t.signed && 1 <= n <= t.Hi()
    modifies b`ptr, b`offset, b`written, b.buf
    ensures Emits(b, IntegerEnc(|old(b.written)|, t, n, t.Lo(), t.Hi(), hasExt, aligned), code)
  {
    hide Fill, BitRef.Valid, CodeOf, IntegerEnc, Width.Modulus;
    code := PackInteger(b, t, n, t.Lo(), t.Hi(), hasExt, aligned);
  }

  method UnpackUnconstrainedInteger(r: CBitRef, t: IntType, n0: int, hasExt: bool, aligned: bool) returns (code: Code, n: int)
    requires r.Valid() && t.signed
    modifies r`ptr, r`offset
    ensures r.Valid()
    ensures Reads(DecInteger(r.stream, old(r.Pos()), t, n0, t.Lo(), t.Hi(), hasExt, aligned), code, n, r.Pos())
  {
    hide CBitRef.Valid, DecInteger;
    code, n := UnpackInteger(r, t, n0, t.Lo(), t.Hi(), hasExt, aligned);
  }
}
