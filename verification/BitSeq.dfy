/** Bit sequences, most significant bit first, and the unsigned arithmetic the
    codec performs on octets and words: shifts, masks and truncating casts on
    unbounded naturals.  Shifting by k is k halvings or doublings, so that every
    proof below is linear. */
module BitSeq {

  type byte = x: int | 0 <= x < 256

  function Pow2(n: nat): (p: nat)
    ensures p >= 1
  {
    if n == 0 then 1 else 2 * Pow2(n - 1)
  }

  /** The low n bits of v, most significant first. */
  function ToBits(v: nat, n: nat): (s: seq<bool>)
    ensures |s| == n
  {
    if n == 0 then [] else ToBits(v / 2, n - 1) + [v % 2 == 1]
  }

  /** The number a bit sequence denotes, most significant bit first. */
  function FromBits(s: seq<bool>): (v: nat)
    ensures v < Pow2(|s|)
  {
    if s == [] then 0
    else 2 * FromBits(s[..|s| - 1]) + if s[|s| - 1] then 1 else 0
  }

  function Zeros(n: nat): (s: seq<bool>)
    ensures |s| == n && forall i | 0 <= i < n :: !s[i]
  {
    seq(n, _ => false)
  }

  /** The bits of a run of octets. */
  function OctetBits(s: seq<byte>): (r: seq<bool>)
    ensures |r| == 8 * |s|
  {
    if s == [] then [] else OctetBits(s[..|s| - 1]) + ToBits(s[|s| - 1], 8)
  }

  function Min(a: int, b: int): int { if a <= b then a else b }

  function Max(a: int, b: int): (m: int)
    ensures m >= a && m >= b
  {
    if a >= b then a else b
  }

  /** Bits left to the next octet boundary. */
  function PadLen(pos: nat): (k: nat)
    ensures k < 8 && (pos + k) % 8 == 0
  {
    (8 - pos % 8) % 8
  }

  function CeilDiv8(n: nat): nat { (n + 7) / 8 }

  // ----- machine operations -----

  function U8(x: int): byte { x % 256 }

  function Shl(v: nat, k: nat): nat { if k == 0 then v else 2 * Shl(v, k - 1) }

  function Shr(v: nat, k: nat): nat { if k == 0 then v else Shr(v / 2, k - 1) }

  function And(a: nat, b: nat): (r: nat)
    ensures r <= a && r <= b
  {
    if a == 0 || b == 0 then 0
    else 2 * And(a / 2, b / 2) + if a % 2 == 1 && b % 2 == 1 then 1 else 0
  }

  /** v mod 2^k. */
  function Low(v: nat, k: nat): (r: nat)
    ensures r <= v && r < Pow2(k)
  {
    if k == 0 then 0 else 2 * Low(v / 2, k - 1) + v % 2
  }

  // ----- shifts and remainders -----

  lemma {:induction false} Pow2Mono(a: nat, b: nat)
    requires a <= b
    ensures Pow2(a) <= Pow2(b)
  {
    if a < b {
      Pow2Mono(a, b - 1);
    }
  }

  lemma {:induction false} Pow2Strict(a: nat, b: nat)
    requires a < b
    ensures Pow2(a) < Pow2(b)
  {
    Pow2Mono(a, b - 1);
  }

  lemma {:induction false} Pow2Add(a: nat, b: nat)
    ensures Pow2(a + b) == Shl(Pow2(a), b)
  {
    if b > 0 {
      Pow2Add(a, b - 1);
    }
  }

  lemma {:induction false} ShlOfOne(k: nat)
    ensures Shl(1, k) == Pow2(k)
  {
    if k > 0 {
      ShlOfOne(k - 1);
    }
  }

  lemma {:induction false} ShlHalf(v: nat, k: nat)
    requires k > 0
    ensures Shl(v, k) / 2 == Shl(v, k - 1) && Shl(v, k) % 2 == 0
  {
  }

  lemma {:induction false} LowExact(v: nat, k: nat)
    requires v < Pow2(k)
    ensures Low(v, k) == v && Shr(v, k) == 0
  {
    if k > 0 {
      LowExact(v / 2, k - 1);
    }
  }

  lemma {:induction false} ShiftSplit(v: nat, k: nat)
    ensures v == Shl(Shr(v, k), k) + Low(v, k)
  {
    if k > 0 {
      ShiftSplit(v / 2, k - 1);
    }
  }

  lemma {:induction false} ShlIsProduct(v: nat, k: nat)
    ensures Shl(v, k) == v * Pow2(k)
  {
    if k > 0 {
      ShlIsProduct(v, k - 1);
      assert v * (2 * Pow2(k - 1)) == 2 * (v * Pow2(k - 1));
    }
  }

  lemma {:induction false} ShrBound(v: nat, k: nat, n: nat)
    requires k <= n && v < Pow2(n)
    ensures Shr(v, k) < Pow2(n - k)
  {
    if k > 0 {
      ShrBound(v / 2, k - 1, n - 1);
    }
  }

  lemma {:induction false} ShlBound(v: nat, k: nat, n: nat)
    requires v < Pow2(n)
    ensures Shl(v, k) + Pow2(k) <= Pow2(n + k)
  {
    if k > 0 {
      ShlBound(v, k - 1, n);
    }
  }

  lemma {:induction false} ShlAdd(u: nat, v: nat, k: nat)
    ensures Shl(u + v, k) == Shl(u, k) + Shl(v, k)
  {
    if k > 0 {
      ShlAdd(u, v, k - 1);
    }
  }

  lemma {:induction false} ShlShl(v: nat, a: nat, b: nat)
    ensures Shl(Shl(v, a), b) == Shl(v, a + b)
  {
    if b > 0 {
      ShlShl(v, a, b - 1);
    }
  }

  lemma {:induction false} ShrOfShl(hi: nat, lo: nat, k: nat)
    requires lo < Pow2(k)
    ensures Shr(Shl(hi, k) + lo, k) == hi && Low(Shl(hi, k) + lo, k) == lo
  {
    if k > 0 {
      ShrOfShl(hi, lo / 2, k - 1);
      assert (Shl(hi, k) + lo) / 2 == Shl(hi, k - 1) + lo / 2;
    }
  }

  /** Adding above the low k bits leaves them alone. */
  lemma {:induction false} LowAddShl(v: nat, h: nat, w: nat, k: nat)
    requires k <= w
    ensures Low(v + Shl(h, w), k) == Low(v, k)
  {
    hide Low, Shl;
    if k > 0 {
      LowAddShl(v / 2, h, w - 1, k - 1);
      ShlHalf(h, w);
      LowStep(v, k);
      LowStep(v + Shl(h, w), k);
    } else {
      LowZero(v);
      LowZero(v + Shl(h, w));
    }
  }

  lemma {:induction false} LowLow(v: nat, a: nat, b: nat)
    requires a <= b
    ensures Low(Low(v, b), a) == Low(v, a)
  {
    hide Low;
    if a > 0 {
      LowStep(v, b);
      LowStep(v, a);
      LowStep(Low(v, b), a);
      LowLow(v / 2, a - 1, b - 1);
    } else {
      LowZero(v);
      LowZero(Low(v, b));
    }
  }

  // ----- bits and numbers -----

  lemma {:induction false} FromToBits(v: nat, n: nat)
    ensures FromBits(ToBits(v, n)) == Low(v, n)
  {
    if n > 0 {
      FromToBits(v / 2, n - 1);
    }
  }

  lemma {:induction false} ToFromBits(s: seq<bool>)
    ensures ToBits(FromBits(s), |s|) == s
  {
    if s != [] {
      var b := if s[|s| - 1] then 1 else 0;
      assert FromBits(s) / 2 == FromBits(s[..|s| - 1]) && FromBits(s) % 2 == b;
      ToFromBits(s[..|s| - 1]);
    }
  }

  lemma {:induction false} FromBitsConcat(a: seq<bool>, b: seq<bool>)
    ensures FromBits(a + b) == Shl(FromBits(a), |b|) + FromBits(b)
  {
    if b == [] {
      assert a + b == a;
    } else {
      var b' := b[..|b| - 1];
      assert (a + b)[..|a + b| - 1] == a + b';
      FromBitsConcat(a, b');
    }
  }

  lemma {:induction false} FromBitsZeros(n: nat)
    ensures FromBits(Zeros(n)) == 0
  {
    if n > 0 {
      assert Zeros(n)[..n - 1] == Zeros(n - 1);
      FromBitsZeros(n - 1);
    }
  }

  /** Equal numbers at equal width are equal bit sequences. */
  lemma {:induction false} BitsUnique(a: seq<bool>, b: seq<bool>)
    requires |a| == |b| && FromBits(a) == FromBits(b)
    ensures a == b
  {
    ToFromBits(a);
    ToFromBits(b);
  }

  /** Only the low n bits matter to an n-bit expansion. */
  lemma {:induction false} ToBitsLow(u: nat, v: nat, n: nat)
    requires Low(u, n) == Low(v, n)
    ensures ToBits(u, n) == ToBits(v, n)
  {
    FromToBits(u, n);
    FromToBits(v, n);
    BitsUnique(ToBits(u, n), ToBits(v, n));
  }

  /** Concatenation is a shift and an addition. */
  lemma {:induction false} ToBitsCombine(hi: nat, m: nat, lo: nat, n: nat)
    requires lo < Pow2(n)
    ensures ToBits(Shl(hi, n) + lo, m + n) == ToBits(hi, m) + ToBits(lo, n)
  {
    if n > 0 {
      ToBitsCombine(hi, m, lo / 2, n - 1);
      assert (Shl(hi, n) + lo) / 2 == Shl(hi, n - 1) + lo / 2;
    }
  }

  lemma {:induction false} ToBitsSplit(v: nat, m: nat, n: nat)
    ensures ToBits(v, m + n) == ToBits(Shr(v, n), m) + ToBits(Low(v, n), n)
    ensures ToBits(Low(v, n), n) == ToBits(v, n)
  {
    ShiftSplit(v, n);
    ToBitsCombine(Shr(v, n), m, Low(v, n), n);
    LowLow(v, n, n);
    ToBitsLow(Low(v, n), v, n);
  }

  lemma {:induction false} ToBitsZero(n: nat)
    ensures ToBits(0, n) == Zeros(n)
  {
    FromBitsZeros(n);
    ToFromBits(Zeros(n));
  }

  /** Leading zeros do not change a number that fits without them. */
  lemma {:induction false} ToBitsPrefix(v: nat, m: nat, n: nat)
    requires v < Pow2(n)
    ensures ToBits(v, m + n) == Zeros(m) + ToBits(v, n)
  {
    LowExact(v, n);
    ToBitsSplit(v, m, n);
    ToBitsZero(m);
  }

  /** The number in a slice of an n-bit expansion. */
  lemma {:induction false} SliceValue(v: nat, n: nat, i: nat, j: nat)
    requires i <= j <= n
    ensures FromBits(ToBits(v, n)[i..j]) == Low(Shr(v, n - j), j - i)
  {
    hide *;
    ToBitsSplit(v, j, n - j);
    var u := Shr(v, n - j);
    ToBitsSplit(u, i, j - i);
    assert ToBits(v, n)[i..j] == ToBits(u, j - i);
    FromToBits(u, j - i);
  }

  // ----- masks -----

  /** A mask of ones from bit i up to bit j keeps exactly those bits. */
  lemma {:induction false} HalfMask(j: nat, i: nat)
    requires i < j
    ensures var i' := if i == 0 then 0 else i - 1;
            && Pow2(i) <= Pow2(j) && Pow2(i') <= Pow2(j - 1)
            && (Pow2(j) - Pow2(i)) / 2 == Pow2(j - 1) - Pow2(i')
            && (Pow2(j) - Pow2(i)) % 2 == if i == 0 then 1 else 0
  {
    Pow2Mono(i, j);
    Pow2Mono(if i == 0 then 0 else i - 1, j - 1);
  }

  lemma {:induction false} LowZero(a: nat)
    ensures Low(a, 0) == 0
  {
  }

  lemma {:induction false} AndZero(a: nat)
    ensures And(a, 0) == 0
  {
  }

  lemma {:induction false} LowStep(a: nat, k: nat)
    requires k > 0
    ensures Low(a, k) == 2 * Low(a / 2, k - 1) + a % 2
  {
  }

  lemma {:induction false} AndRangeMask(a: nat, j: nat, i: nat)
    requires i <= j
    ensures Pow2(i) <= Pow2(j)
    ensures And(a, Pow2(j) - Pow2(i)) == Low(a, j) - Low(a, i)
    decreases j
  {
    hide And, Low, Pow2;
    Pow2Mono(i, j);
    assert Low(a, 0) == 0 by { LowZero(a); }
    assert And(a, 0) == 0 by { AndZero(a); }
    if i < j {
      var i' := if i == 0 then 0 else i - 1;
      Pow2Mono(i', j - 1);
      HalfMask(j, i);
      AndRangeMask(a / 2, j - 1, i');
      AndStep(a, Pow2(j) - Pow2(i));
      LowStep(a, j);
      if i > 0 {
        LowStep(a, i);
      } else {
        LowZero(a / 2);
      }
    }
  }

  /** Masking with n ones keeps the low n bits. */
  lemma {:induction false} MaskLow(v: nat, n: nat)
    ensures Shl(1, n) >= 1 && And(v, Shl(1, n) - 1) == Low(v, n)
    ensures ToBits(Low(v, n), n) == ToBits(v, n)
  {
    ShlOfOne(n);
    AndRangeMask(v, n, 0);
    LowLow(v, n, n);
    ToBitsLow(Low(v, n), v, n);
  }

  lemma {:induction false} AndStep(a: nat, b: nat)
    ensures And(a, b) == 2 * And(a / 2, b / 2) + if a % 2 == 1 && b % 2 == 1 then 1 else 0
  {
  }

  /** One bit of an expansion. */
  lemma {:induction false} BitAt(v: nat, n: nat, i: nat)
    requires i < n
    ensures ToBits(v, n)[i] == (Shr(v, n - i - 1) % 2 == 1)
  {
    if i < n - 1 {
      BitAt(v / 2, n - 1, i);
    }
  }

  lemma {:induction false} BitOfFlag(b: bool)
    ensures ToBits(if b then 1 else 0, 1) == [b]
    ensures FromBits([b]) == if b then 1 else 0
  {
    assert FromBits([]) == 0;
    assert ToBits(0, 0) == [];
  }

  // ----- octets -----

  lemma {:induction false} OctetBitsAppend(s: seq<byte>, b: byte)
    ensures OctetBits(s + [b]) == OctetBits(s) + ToBits(b, 8)
  {
    assert (s + [b])[..|s|] == s;
  }

  lemma {:induction false} OctetBitsConcat(s: seq<byte>, t: seq<byte>)
    ensures OctetBits(s + t) == OctetBits(s) + OctetBits(t)
  {
    if t == [] {
      assert s + t == s;
    } else {
      var t' := t[..|t| - 1];
      assert (s + t)[..|s + t| - 1] == s + t';
      OctetBitsConcat(s, t');
    }
  }

  lemma {:induction false} OctetBitsSlice(s: seq<byte>, i: nat, j: nat)
    requires i <= j <= |s|
    ensures OctetBits(s)[8 * i..8 * j] == OctetBits(s[i..j])
  {
    assert s == s[..i] + s[i..j] + s[j..];
    OctetBitsConcat(s[..i] + s[i..j], s[j..]);
    OctetBitsConcat(s[..i], s[i..j]);
  }

  lemma {:induction false} OctetBitsAt(s: seq<byte>, i: nat)
    requires i < |s|
    ensures OctetBits(s)[8 * i..8 * i + 8] == ToBits(s[i], 8)
  {
    OctetBitsSlice(s, i, i + 1);
    assert s[i..i + 1] == [] + [s[i]];
    OctetBitsAppend([], s[i]);
  }

  lemma {:induction false} Pow2Of8()
    ensures Pow2(8) == 256
  {
    assert Pow2(4) == 16;
    Pow2Add(4, 4);
  }
}
