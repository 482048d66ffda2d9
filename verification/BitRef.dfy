/** The write cursor over a bounded octet buffer. */
module BitRefs {
  import opened BitSeq

  datatype Code = Success | EncodeFail | DecodeFail

  /** w followed by as much of b as a store of cap bits can take. */
  function Fill(w: seq<bool>, b: seq<bool>, cap: nat): (r: seq<bool>)
    requires |w| <= cap
    ensures |r| <= cap && w <= r
  {
    if |w| + |b| <= cap then w + b else (w + b)[..cap]
  }

  lemma {:induction false} FillAppend(w: seq<bool>, a: seq<bool>, b: seq<bool>, cap: nat)
    requires |w| <= cap
    ensures Fill(Fill(w, a, cap), b, cap) == Fill(w, a + b, cap)
  {
    assert w + a + b == w + (a + b);
  }

  // ----- what one step of the packing loop does to an octet -----

  /** The octet mask that keeps the offset bits already written. */
  function KeepMask(offset: nat): byte
    requires offset < 8
  {
    U8(255 - U8(Shl(1, 8 - offset) - 1))
  }

  /** Bits h fill the top of octet b; the rest of b is zero. */
  ghost predicate TopBits(b: byte, h: seq<bool>) {
    |h| < 8 && ToBits(b, 8) == h + Zeros(8 - |h|)
  }

  lemma {:induction false} KeepMaskValue(offset: nat)
    requires offset < 8
    ensures KeepMask(offset) == Pow2(8) - Pow2(8 - offset)
  {
    ShlOfOne(8 - offset);
    Pow2Of8();
    Pow2Mono(8 - offset, 8);
    if offset > 0 {
      Pow2Mono(8 - offset, 7);
    }
  }

  lemma {:induction false} TopBitsValue(b: byte, h: seq<bool>)
    requires TopBits(b, h)
    ensures b == Shl(FromBits(h), 8 - |h|) && Low(b, 8 - |h|) == 0
  {
    Pow2Of8();
    LowExact(b, 8);
    FromToBits(b, 8);
    FromBitsConcat(h, Zeros(8 - |h|));
    FromBitsZeros(8 - |h|);
    ShrOfShl(FromBits(h), 0, 8 - |h|);
  }

  lemma {:induction false} KeptValue(b: byte, h: seq<bool>)
    requires |h| < 8 && (|h| > 0 ==> TopBits(b, h))
    ensures And(b, KeepMask(|h|)) == Shl(FromBits(h), 8 - |h|)
  {
    hide Pow2, Shl, And, KeepMask, ToBits, FromBits;
    KeepMaskValue(|h|);
    AndRangeMask(b, 8, 8 - |h|);
    Pow2Of8();
    LowExact(b, 8);
    if |h| > 0 {
      TopBitsValue(b, h);
    } else {
      assert FromBits(h) == 0 by { FromBitsZeros(0); assert h == Zeros(0); }
      ShlZero(8);
    }
  }

  /** The octet the packing loop stores: n bits of field below the kept bits. */
  function PackedOctet(b: byte, offset: nat, field: nat, n: nat): byte
    requires offset < 8 && n <= 8 - offset
  {
    U8(And(b, KeepMask(offset)) + Shl(field, 8 - offset - n))
  }

  lemma {:induction false} PackOctet(s: seq<byte>, b: byte, h: seq<bool>, field: nat, n: nat)
    requires |h| < 8 && 0 < n <= 8 - |h| && field < Pow2(n)
    requires |h| > 0 ==> TopBits(b, h)
    ensures OctetBits(s + [PackedOctet(b, |h|, field, n)])
         == OctetBits(s) + h + ToBits(field, n) + Zeros(8 - |h| - n)
  {
    hide ToBits, Pow2, Shl, And, FromBits;
    KeptValue(b, h);
    FieldValue(h, field, n, 8 - |h| - n);
    Pow2Of8();
    OctetBitsAppend(s, PackedOctet(b, |h|, field, n));
  }

  lemma {:induction false} FieldValue(h: seq<bool>, field: nat, n: nat, k: nat)
    requires field < Pow2(n)
    ensures var v := Shl(FromBits(h), n + k) + Shl(field, k);
            && v < Pow2(|h| + n + k)
            && ToBits(v, |h| + n + k) == h + ToBits(field, n) + Zeros(k)
  {
    hide *;
    var x := FromBits(h);
    var w := Shl(x, n) + field;
    ShlShl(x, n, k);
    ShlAdd(Shl(x, n), field, k);
    ShlBound(x, n, |h|);
    ShlBound(w, k, |h| + n);
    ToBitsCombine(w, |h| + n, 0, k);
    ToBitsCombine(x, |h|, field, n);
    ToFromBits(h);
    ToBitsZero(k);
  }

  /** Clearing the unwritten bits of a clean octet changes nothing. */
  lemma {:induction false} ClearTail(b: byte, h: seq<bool>)
    requires 0 < |h| && TopBits(b, h)
    ensures And(b, U8(256 - Shl(1, 8 - |h|))) == b
  {
    hide And, Shl, Low, Pow2, ToBits, FromBits, KeepMask;
    KeepMaskValue(|h|);
    TopBitsValue(b, h);
    Pow2Of8();
    LowExact(b, 8);
    ShlOfOne(8 - |h|);
    TailMask(|h|);
    AndRangeMask(b, 8, 8 - |h|);
  }

  lemma {:induction false} TailMask(offset: nat)
    requires 0 < offset < 8
    ensures U8(256 - Shl(1, 8 - offset)) == Pow2(8) - Pow2(8 - offset)
  {
    hide Shl;
    ShlOfOne(8 - offset);
    Pow2Of8();
    Pow2Mono(8 - offset, 8);
  }

  lemma {:induction false} ShlZero(k: nat)
    ensures Shl(0, k) == 0
  {
    if k > 0 { ShlZero(k - 1); }
  }

  lemma {:induction false} SplitAfter<T>(w: seq<T>, z: seq<T>, a: seq<T>, b: seq<T>)
    requires w + z == a + b && |a| <= |w|
    ensures w == a + w[|a|..] && b == w[|a|..] + z
  {
    assert w == (w + z)[..|w|] && a == (a + b)[..|a|];
    assert b == (w + z)[|a|..];
  }

  lemma {:induction false} PadInside(ptr: nat, offset: nat)
    requires 0 < offset < 8
    ensures PadLen(8 * ptr + offset) == 8 - offset
  {
  }

  class BitRef {
    var buf: array<byte>
    var ptr: nat
    var offset: nat
    var max: nat
    ghost var written: seq<bool>

    /** First octet no bit has been written to. */
    ghost function EndOctet(): (e: nat)
      reads this
    {
      ptr + if offset > 0 then 1 else 0
    }

    ghost function Cap(): nat
      reads this
    {
      8 * max
    }

    /** The buffer up to the cursor holds exactly the written bits, and the rest
        of a partly written octet is zero. */
    ghost predicate Valid()
      reads this, buf
      ensures Valid() ==> |written| == 8 * ptr + offset && offset < 8 && EndOctet() <= max <= buf.Length
    {
      && offset < 8 && EndOctet() <= max <= buf.Length
      && |written| == 8 * ptr + offset
      && OctetBits(buf[..EndOctet()]) == written + Zeros(8 * EndOctet() - |written|)
    }

    /** bits, or as many of them as fit, were appended; no earlier bit changed. */
    twostate predicate Appended(bits: seq<bool>)
      reads this, buf
    {
      && buf == old(buf) && max == old(max)
      && old(Valid()) && Valid()
      && written == Fill(old(written), bits, Cap())
    }

    /** No octet behind the cursor's own changed. */
    twostate predicate RestKept()
      reads this, buf
    {
      buf == old(buf) && forall i | EndOctet() <= i < buf.Length :: buf[i] == old(buf[i])
    }

    constructor (b: array<byte>, size: nat)
      requires size <= b.Length
      ensures Valid() && buf == b && max == size && written == []
    {
      buf, ptr, offset, max := b, 0, 0, size;
      written := [];
    }

    method Distance() returns (d: nat)
      requires Valid()
      ensures d == |written|
    {
      d := offset + 8 * ptr;
    }

    method DistanceBytes() returns (d: nat)
      requires Valid()
      ensures 8 * (d - 1) < |written| <= 8 * d
    {
      d := ptr + if offset > 0 then 1 else 0;
    }

    method Pack(v: nat, n: nat) returns (code: Code)
      requires Valid()
      modifies this`ptr, this`offset, this`written, buf
      ensures Appended(if n < 64 then ToBits(v, n) else []) && RestKept()
      ensures code == if n < 64 && |old(written)| + n <= Cap() then Success else EncodeFail
    {
      if n >= 64 {
        return EncodeFail;
      }
      hide Valid, OctetBits, ToBits, FromBits;
      var val: nat, n_bits: nat := v, n;
      ghost var all := written + ToBits(v, n);
      while n_bits > 0
        invariant Valid()
        invariant written + ToBits(val, n_bits) == all
        invariant forall i | EndOctet() <= i < buf.Length :: buf[i] == old(buf[i])
      {
        if ptr >= max {
          return EncodeFail;
        }
        val, n_bits := PackChunk(val, n_bits);
      }
      return Success;
    }

    /** The body of the packing loop: as many of the n bits of v as the current
        octet takes. */
    method PackChunk(v: nat, n: nat) returns (val: nat, n_bits: nat)
      requires Valid() && ptr < max && n > 0
      modifies this`ptr, this`offset, this`written, buf
      ensures Valid() && n_bits < n
      ensures written + ToBits(val, n_bits) == old(written) + ToBits(v, n)
      ensures EndOctet() == old(ptr) + 1
      ensures RestKept()
    {
      hide Valid, OctetBits, ToBits, Pow2, Shr, Shl, And, Low;
      n_bits := n;
      MaskLow(v, n_bits);
      var mask := Shl(1, n_bits) - 1;
      val := And(v, mask);
      if 8 - offset > n_bits {
        PackStep(val, n_bits);
        n_bits := 0;
      } else {
        var k := 8 - offset;
        ShrBound(val, n_bits - k, n_bits);
        ToBitsSplit(val, k, n_bits - k);
        PackStep(Shr(val, n_bits - k), k);
        n_bits := n_bits - k;
      }
    }

    /** n bits of field into the current octet. */
    method PackStep(field: nat, n: nat)
      requires Valid() && ptr < max && 0 < n <= 8 - offset && field < Pow2(n)
      modifies this`ptr, this`offset, this`written, buf
      ensures Valid() && written == old(written) + ToBits(field, n)
      ensures EndOctet() == old(ptr) + 1
      ensures RestKept()
    {
      hide OctetBits, ToBits, Pow2, Shl, And, FromBits;
      PackOctet(buf[..ptr], buf[ptr], OpenBits(), field, n);
      ghost var after := buf[..ptr] + [PackedOctet(buf[ptr], offset, field, n)];
      buf[ptr] := PackedOctet(buf[ptr], offset, field, n);
      written := written + ToBits(field, n);
      assert buf[..ptr + 1] == after;
      if offset + n < 8 {
        offset := offset + n;
      } else {
        offset := 0;
        ptr := ptr + 1;
      }
    }

    /** Moves to the next octet boundary without touching the octet it leaves. */
    method AlignBytes() returns (code: Code)
      requires Valid()
      modifies this`ptr, this`offset, this`written
      ensures Appended(Zeros(PadLen(|old(written)|)))
      ensures code == Success
    {
      if offset == 0 {
        return Success;
      }
      // An open octet always lies inside the buffer: the limit check cannot fire.
      assert ptr < max;
      CloseOctet();
      return Success;
    }

    /** As AlignBytes, clearing the unwritten bits of the octet first. */
    method AlignBytesZero() returns (code: Code)
      requires Valid()
      modifies this`ptr, this`offset, this`written, buf
      ensures Appended(Zeros(PadLen(|old(written)|))) && RestKept()
      ensures code == Success
    {
      if offset == 0 {
        return Success;
      }
      assert ptr < max;
      ClearOpenOctet();
      CloseOctet();
      return Success;
    }

    method CloseOctet()
      requires Valid() && offset > 0
      modifies this`ptr, this`offset, this`written
      ensures Appended(Zeros(PadLen(|old(written)|)))
    {
      hide OctetBits, PadLen;
      PadInside(ptr, offset);
      written := written + Zeros(8 - offset);
      offset := 0;
      ptr := ptr + 1;
    }

    method ClearOpenOctet()
      requires Valid() && offset > 0
      modifies buf
      ensures buf[..] == old(buf[..])
    {
      hide And, Shl, OctetBits, ToBits;
      ClearTail(buf[ptr], OpenBits());
      buf[ptr] := And(buf[ptr], U8(256 - Shl(1, 8 - offset)));
    }

    /** Copies n whole octets.  One octet of room beyond the last one is demanded,
        even when the cursor is aligned. */
    method PackBytes(src: array<byte>, n: nat) returns (code: Code)
      requires Valid() && n <= src.Length && src != buf
      modifies this`ptr, this`offset, this`written, buf
      ensures code == if n == 0 || old(ptr) + n < max then Success else EncodeFail
      ensures Appended(if code == Success then OctetBits(src[..n]) else []) && RestKept()
    {
      if n == 0 {
        return Success;
      }
      if ptr + n >= max {
        return EncodeFail;
      }
      if offset == 0 {
        PackWhole(src, n);
      } else {
        PackEach(src, n);
      }
      return Success;
    }

    method PackEach(src: array<byte>, n: nat)
      requires Valid() && n <= src.Length && src != buf && ptr + n < max
      modifies this`ptr, this`offset, this`written, buf
      ensures Appended(OctetBits(src[..n])) && RestKept()
    {
      hide OctetBits, ToBits;
      ghost var w := written;
      assert OctetBits(src[..0]) == [];
      for i := 0 to n
        invariant Valid() && written == w + OctetBits(src[..i])
        invariant forall j | EndOctet() <= j < buf.Length :: buf[j] == old(buf[j])
      {
        hide Valid;
        OctetBitsAppend(src[..i], src[i]);
        assert src[..i + 1] == src[..i] + [src[i]];
        var c := Pack(src[i], 8);
      }
    }

    method PackWhole(src: array<byte>, n: nat)
      requires Valid() && n <= src.Length && src != buf && offset == 0 && ptr + n < max
      modifies this`ptr, this`offset, this`written, buf
      ensures Appended(OctetBits(src[..n])) && RestKept()
    {
      hide OctetBits;
      ghost var s := buf[..ptr];
      forall i | 0 <= i < n {
        buf[ptr + i] := src[i];
      }
      assert buf[..ptr + n] == s + src[..n];
      OctetBitsConcat(s, src[..n]);
      written := written + OctetBits(src[..n]);
      ptr := ptr + n;
    }

    /** Points the cursor at the start of another buffer. */
    method Reset(b: array<byte>, size: nat)
      requires size <= b.Length
      modifies this
      ensures Valid() && buf == b && max == size && written == []
    {
      buf, ptr, offset, max := b, 0, 0, size;
      written := [];
    }

    /** Value assignment of one cursor to another. */
    method Assign(other: BitRef)
      requires other.Valid()
      modifies this
      ensures Valid() && written == other.written && buf == other.buf && max == other.max
      ensures ptr == other.ptr && offset == other.offset
    {
      hide OctetBits;
      buf, ptr, offset, max := other.buf, other.ptr, other.offset, other.max;
      written := other.written;
    }

    /** The bits already written to the current octet. */
    ghost function OpenBits(): (h: seq<bool>)
      requires Valid()
      reads this, buf
      ensures |h| == offset && written == OctetBits(buf[..ptr]) + h
      ensures offset > 0 ==> TopBits(buf[ptr], h)
    {
      var tail := if offset > 0 then ToBits(buf[ptr], 8) else [];
      assert OctetBits(buf[..EndOctet()]) == OctetBits(buf[..ptr]) + tail by {
        if offset > 0 {
          assert buf[..EndOctet()] == buf[..ptr] + [buf[ptr]];
          OctetBitsAppend(buf[..ptr], buf[ptr]);
        }
      }
      SplitAfter(written, Zeros(8 * EndOctet() - |written|), OctetBits(buf[..ptr]), tail);
      written[8 * ptr..]
    }
  }
}
