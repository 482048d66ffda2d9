/** The read cursor over a bounded octet buffer, and what reading means on the
    bit stream the buffer holds. */
module CBitRefs {
  import opened BitSeq
  import opened BitRefs

  /** Outcome of decoding: a value and the bit position after it. */
  datatype Dec<+T> = Got(val: T, pos: nat) | Bad

  /** The unsigned number in the n bits at pos, for a target of width bits. */
  function DecBits(s: seq<bool>, pos: nat, n: nat, width: nat): (d: Dec<nat>)
    ensures d.Got? ==> d.val < Pow2(n) && d.pos == pos + n <= |s|
  {
    if n > width || pos + n > |s| then Bad
    else Got(FromBits(s[pos..pos + n]), pos + n)
  }

  /** What a read cut short by the end of the stream leaves in its target: the bits there
      were, in the top places. */
  function CutShort(s: seq<bool>, pos: nat, n: nat): nat
    requires pos <= |s| < pos + n
  {
    Shl(FromBits(s[pos..]), n - (|s| - pos))
  }

  function AlignUp(pos: nat): (p: nat)
    ensures pos <= p < pos + 8 && p % 8 == 0
  {
    pos + PadLen(pos)
  }

  // ----- what one step of the unpacking loop takes from an octet -----

  lemma {:induction false} LowSplit(v: nat, n: nat, k: nat)
    ensures Low(v, n + k) == Shl(Low(Shr(v, k), n), k) + Low(v, k)
  {
    if k > 0 {
      LowSplit(v / 2, n, k - 1);
    }
  }

  /** Mask and shift of a field of n bits that ends inside the octet. */
  lemma {:induction false} TakeMiddle(b: byte, offset: nat, n: nat)
    requires 0 < n && offset + n < 8
    ensures var mask := U8(U8(Shl(1, 8 - offset)) - U8(Shl(1, 8 - offset - n)));
            Shr(And(b, mask), 8 - offset - n) == FromBits(ToBits(b, 8)[offset..offset + n])
  {
    hide And, Shl, Shr, Low, Pow2, ToBits, FromBits;
    var k := 8 - offset - n;
    MiddleMask(offset, n);
    AndRangeMask(b, n + k, k);
    LowSplit(b, n, k);
    ShrOfShl(Low(Shr(b, k), n), 0, k);
    SliceValue(b, 8, offset, offset + n);
  }


  lemma {:induction false} MiddleMask(offset: nat, n: nat)
    requires 0 < n && offset + n < 8
    ensures U8(U8(Shl(1, 8 - offset)) - U8(Shl(1, 8 - offset - n))) == Pow2(8 - offset) - Pow2(8 - offset - n)
  {
    hide Shl, Pow2;
    ShlOfOne(8 - offset);
    ShlOfOne(8 - offset - n);
    Pow2Of8();
    Pow2Strict(8 - offset - n, 8 - offset);
    Pow2Mono(8 - offset, 8);
    ByteDifference(Pow2(8 - offset), Pow2(8 - offset - n));
  }

  /** The upper end may be 256, which a byte holds as zero. */
  lemma {:induction false} ByteDifference(a: nat, b: nat)
    requires 0 < b < a <= 256
    ensures U8(U8(a) - U8(b)) == a - b
  {
  }

  /** Mask of the rest of the octet. */
  lemma {:induction false} TakeRest(b: byte, offset: nat)
    requires offset < 8
    ensures And(b, U8(Shl(1, 8 - offset) - 1)) == FromBits(ToBits(b, 8)[offset..8])
  {
    hide And, Shl, Shr, Low, ToBits, FromBits, Pow2;
    ShlOfOne(8 - offset);
    Pow2Of8();
    Pow2Mono(8 - offset, 8);
    MaskLow(b, 8 - offset);
    SliceValue(b, 8, offset, 8);
    assert Shr(b, 0) == b by { ShiftNothing(b); }
  }

  lemma {:induction false} ShiftNothing(b: nat)
    ensures Shr(b, 0) == b
  {
  }

  /** Reading the bits p..q after the bits p0..p, with n still to come. */
  lemma {:induction false} Accumulate(s: seq<bool>, p0: nat, p: nat, q: nat, n: nat)
    requires p0 <= p <= q <= |s|
    ensures Shl(FromBits(s[p0..p]), n + (q - p)) + Shl(FromBits(s[p..q]), n) == Shl(FromBits(s[p0..q]), n)
  {
    hide *;
    var a, c := s[p0..p], s[p..q];
    assert s[p0..q] == a + c;
    FromBitsConcat(a, c);
    ShlShl(FromBits(a), |c|, n);
    ShlAdd(Shl(FromBits(a), |c|), FromBits(c), n);
  }

  lemma {:induction false} SliceSlice<T>(s: seq<T>, i: nat, j: nat, a: nat, b: nat)
    requires i <= j <= |s| && a <= b <= j - i
    ensures s[i..j][a..b] == s[i + a..i + b]
  {
    var l, r := s[i..j][a..b], s[i + a..i + b];
    assert forall k | 0 <= k < b - a :: l[k] == s[i + a + k] == r[k];
  }

  lemma {:induction false} NothingRead(s: seq<bool>, n: nat)
    requires s == []
    ensures Shl(FromBits(s), n) == 0
  {
    ShlZero(n);
  }

  lemma {:induction false} AllRead(s: seq<bool>)
    ensures Shl(FromBits(s), 0) == FromBits(s)
  {
  }

  class CBitRef {
    var buf: array<byte>
    var ptr: nat
    var offset: nat
    var max: nat
    ghost var stream: seq<bool>

    ghost function Pos(): nat
      reads this
    {
      8 * ptr + offset
    }

    ghost predicate Valid()
      reads this, buf
      ensures Valid() ==> |stream| == 8 * max && Pos() <= |stream| && offset < 8
      ensures Valid() ==> max <= buf.Length
    {
      && offset < 8 && ptr + (if offset > 0 then 1 else 0) <= max <= buf.Length
      && stream == OctetBits(buf[..max])
    }

    constructor (b: array<byte>, size: nat)
      requires size <= b.Length
      ensures Valid() && buf == b && max == size && Pos() == 0
      ensures stream == OctetBits(b[..size])
    {
      buf, ptr, offset, max := b, 0, 0, size;
      stream := OctetBits(b[..size]);
    }

    /** Reads n bits into a target of width bits.  On a short buffer everything up
        to the end is consumed; on an over-wide request nothing is. */
    method Unpack(n: nat, width: nat) returns (code: Code, val: nat)
      requires Valid()
      modifies this`ptr, this`offset
      ensures Valid()
      ensures match DecBits(stream, old(Pos()), n, width)
              case Got(v, p) => code == Success && val == v && Pos() == p
              case Bad => code == DecodeFail && Pos() == if n > width then old(Pos()) else |stream|
      ensures code != Success && n <= width ==> val == CutShort(stream, old(Pos()), n)
    {
      if n > width {
        return DecodeFail, 0;
      }
      code, val := UnpackLoop(n);
    }

    method UnpackLoop(n: nat) returns (code: Code, val: nat)
      requires Valid()
      modifies this`ptr, this`offset
      ensures Valid()
      ensures code == if old(Pos()) + n <= |stream| then Success else DecodeFail
      ensures Pos() == Min(old(Pos()) + n, |stream|)
      ensures code == Success ==> val == FromBits(stream[old(Pos())..Pos()])
      ensures code != Success ==> val == CutShort(stream, old(Pos()), n)
    {
      hide Valid, Shl, FromBits, Pow2;
      val := 0;
      var n_bits: nat := n;
      ghost var p0 := Pos();
      NothingRead(stream[p0..p0], n);
      while n_bits > 0
        invariant n_bits <= n && Valid() && Pos() == p0 + (n - n_bits)
        invariant val == Shl(FromBits(stream[p0..Pos()]), n_bits)
      {
        if ptr >= max {
          assert stream[p0..] == stream[p0..Pos()];
          return DecodeFail, val;
        }
        ghost var p := Pos();
        var chunk, k := UnpackChunk(n_bits);
        Accumulate(stream, p0, p, Pos(), n_bits - k);
        val := val + chunk;
        n_bits := n_bits - k;
      }
      AllRead(stream[p0..Pos()]);
      return Success, val;
    }

    /** The body of the unpacking loop: k of the n bits wanted, in place. */
    method UnpackChunk(n: nat) returns (chunk: nat, k: nat)
      requires Valid() && ptr < max && n > 0
      modifies this`ptr, this`offset
      ensures Valid() && 0 < k <= n && Pos() == old(Pos()) + k
      ensures chunk == Shl(FromBits(stream[old(Pos())..Pos()]), n - k)
    {
      hide And, Shr, Shl, ToBits, FromBits, OctetBits, Pow2;
      OctetBitsAt(buf[..max], ptr);
      ghost var bits := ToBits(buf[ptr], 8);
      assert bits == stream[8 * ptr..8 * ptr + 8];
      if 8 - offset > n {
        k := n;
        TakeMiddle(buf[ptr], offset, n);
        SliceSlice(stream, 8 * ptr, 8 * ptr + 8, offset, offset + n);
        AllRead(stream[Pos()..Pos() + n]);
        var mask := U8(U8(Shl(1, 8 - offset)) - U8(Shl(1, 8 - offset - n)));
        chunk := Shr(And(buf[ptr], mask), 8 - offset - n);
        offset := offset + n;
      } else {
        k := 8 - offset;
        TakeRest(buf[ptr], offset);
        SliceSlice(stream, 8 * ptr, 8 * ptr + 8, offset, 8);
        var mask := U8(Shl(1, 8 - offset) - 1);
        chunk := Shl(And(buf[ptr], mask), n - 8 + offset);
        offset := 0;
        ptr := ptr + 1;
      }
    }

    /** Reads n whole octets. */
    method UnpackBytes(dst: array<byte>, n: nat) returns (code: Code)
      requires Valid() && n <= dst.Length && dst != buf
      modifies this`ptr, this`offset, dst
      ensures Valid()
      ensures code == if old(Pos()) + 8 * n <= |stream| then Success else DecodeFail
      ensures Pos() == old(Pos()) + if code == Success then 8 * n else 0
      ensures code == Success ==> OctetBits(dst[..n]) == stream[old(Pos())..Pos()]
      ensures code != Success ==> dst[..] == old(dst[..])
      ensures dst[n..] == old(dst[n..])
    {
      hide OctetBits;
      assert OctetBits(dst[..0]) == [];
      if n == 0 {
        return Success;
      }
      if offset == 0 {
        if ptr + n > max {
          return DecodeFail;
        }
        UnpackWhole(dst, n);
      } else {
        if ptr + n >= max {
          return DecodeFail;
        }
        UnpackEach(dst, n);
      }
      return Success;
    }

    method UnpackWhole(dst: array<byte>, n: nat)
      requires Valid() && n <= dst.Length && dst != buf && offset == 0 && ptr + n <= max
      modifies this`ptr, dst
      ensures Valid() && Pos() == old(Pos()) + 8 * n
      ensures OctetBits(dst[..n]) == stream[old(Pos())..Pos()]
      ensures dst[n..] == old(dst[n..])
    {
      hide OctetBits;
      ghost var all := buf[..max];
      OctetBitsSlice(all, ptr, ptr + n);
      forall i | 0 <= i < n {
        dst[i] := buf[ptr + i];
      }
      assert buf[..max] == all;
      assert forall i | 0 <= i < n :: dst[..n][i] == all[ptr + i] == all[ptr..ptr + n][i];
      assert dst[..n] == all[ptr..ptr + n];
      ptr := ptr + n;
    }

    method UnpackEach(dst: array<byte>, n: nat)
      requires Valid() && n <= dst.Length && dst != buf && Pos() + 8 * n <= |stream|
      modifies this`ptr, this`offset, dst
      ensures Valid() && Pos() == old(Pos()) + 8 * n
      ensures OctetBits(dst[..n]) == stream[old(Pos())..Pos()]
      ensures dst[n..] == old(dst[n..])
    {
      hide OctetBits, ToBits, FromBits, CutShort;
      ghost var p0 := Pos();
      for i := 0 to n
        invariant Valid() && Pos() == p0 + 8 * i
        invariant OctetBits(dst[..i]) == stream[p0..Pos()]
        invariant dst[n..] == old(dst[n..])
      {
        hide Valid;
        var code, v := Unpack(8, 8);
        ghost var octet := stream[p0 + 8 * i..p0 + 8 * i + 8];
        ghost var s := dst[..i];
        Pow2Of8();
        ToFromBits(octet);
        dst[i] := v;
        assert dst[..i + 1] == s + [v];
        OctetBitsAppend(s, v);
      }
    }

    method AlignBytes() returns (code: Code)
      requires Valid()
      modifies this`ptr, this`offset
      ensures Valid() && code == Success && Pos() == AlignUp(old(Pos()))
    {
      if offset == 0 {
        return Success;
      }
      // An open octet always lies inside the buffer: the limit check cannot fire.
      assert ptr < max;
      offset := 0;
      ptr := ptr + 1;
      return Success;
    }

    method AdvanceBits(n: nat) returns (code: Code)
      requires Valid()
      modifies this`ptr, this`offset
      ensures Valid()
      ensures code == if old(Pos()) + n <= |stream| then Success else DecodeFail
      ensures Pos() == old(Pos()) + if code == Success then n else 0
    {
      var extra := (offset + n) % 8;
      if ptr + CeilDiv8(offset + n) > max {
        return DecodeFail;
      }
      ptr := ptr + (offset + n) / 8;
      offset := extra;
      return Success;
    }

    /** Bits consumed since the cursor other was copied from this one. */
    method DistanceFrom(ptr0: nat, offset0: nat) returns (d: int)
      ensures d == Pos() - (8 * ptr0 + offset0)
    {
      d := (offset - offset0) + 8 * (ptr - ptr0);
    }
  }
}
