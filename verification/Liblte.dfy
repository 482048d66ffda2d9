/** The simple bit packer: bit strings kept one bit to an octet. */
module Liblte {
  import opened BitSeq
  import opened BitRefs

  function Flag(b: bool): byte { if b then 1 else 0 }

  function Flags(bs: seq<bool>): (r: seq<byte>)
    ensures |r| == |bs|
  {
    seq(|bs|, i requires 0 <= i < |bs| => Flag(bs[i]))
  }

  predicate Binary(s: seq<byte>) {
    forall i :: 0 <= i < |s| ==> s[i] < 2
  }

  function Bools(s: seq<byte>): (r: seq<bool>)
    ensures |r| == |s|
  {
    seq(|s|, i requires 0 <= i < |s| => s[i] == 1)
  }

  lemma BoolsOfFlags(bs: seq<bool>)
    ensures Binary(Flags(bs)) && Bools(Flags(bs)) == bs
  {
  }

  lemma FlagsOfBools(s: seq<byte>)
    requires Binary(s)
    ensures Flags(Bools(s)) == s
  {
  }

  // ----- one value -----

  method Value2Bits(value: nat, bits: array<byte>, at: nat, n: nat) returns (next: nat)
    requires n <= 32 && at + n <= bits.Length
    modifies bits
    ensures next == at + n
    ensures bits[..] == old(bits[..at]) + Flags(ToBits(value, n)) + old(bits[at + n..])
  {
    hide Shr, ToBits;
    ghost var was, flags := bits[..], Flags(ToBits(value, n));
    for i := 0 to n
      invariant bits[..] == was[..at] + flags[..i] + was[at + i..]
    {
      BitAt(value, n, i);
      bits[at + i] := Shr(value, n - i - 1) % 2;
      OneMore(was, flags, at, i);
    }
    next := at + n;
  }

  lemma OneMore(was: seq<byte>, flags: seq<byte>, at: nat, i: nat)
    requires i < |flags| && at + |flags| <= |was|
    ensures (was[..at] + flags[..i] + was[at + i..])[at + i := flags[i]] == was[..at] + flags[..i + 1] + was[at + i + 1..]
  {
  }

  lemma BitAppended(s: seq<byte>, i: nat, k: nat)
    requires i < |s| && s[i] < 2
    ensures Shl(FromBits(Bools(s[..i])), k + 1) + Shl(s[i], k) == Shl(FromBits(Bools(s[..i + 1])), k)
  {
    hide Shl;
    var low := Bools(s[..i]);
    assert Bools(s[..i + 1]) == low + [s[i] == 1];
    assert (low + [s[i] == 1])[..i] == low;
    ShlShl(FromBits(low), 1, k);
    ShlOnce(FromBits(low));
    ShlAdd(2 * FromBits(low), s[i], k);
  }

  /** The bits of disjoint positions are or-ed, which is to say added. */
  method Bits2Value(bits: array<byte>, at: nat, n: nat) returns (value: nat, next: nat)
    requires n <= 32 && at + n <= bits.Length && Binary(bits[at..at + n])
    ensures next == at + n && value == FromBits(Bools(bits[at..at + n]))
  {
    hide Shl, FromBits, Bools;
    ghost var s := bits[at..at + n];
    value := 0;
    NoBits(n);
    assert s[..0] == [];
    for i := 0 to n
      invariant value == Shl(FromBits(Bools(s[..i])), n - i)
    {
      BitAppended(s, i, n - i - 1);
      value := value + Shl(bits[at + i], n - i - 1);
    }
    assert s[..n] == s;
    ShlNone(FromBits(Bools(s)));
    next := at + n;
  }

  lemma NoBits(k: nat)
    ensures Shl(FromBits(Bools([])), k) == 0
  {
    ShlZero(k);
  }

  lemma ShlOnce(v: nat)
    ensures Shl(v, 1) == 2 * v
  {
    ShlNone(v);
  }

  lemma ShlNone(v: nat)
    ensures Shl(v, 0) == v
  {
  }

  // ----- octets -----

  function Whole(bs: seq<bool>, i: nat): seq<bool>
    requires 8 * i <= |bs|
  {
    bs[8 * i..Min(8 * i + 8, |bs|)]
  }

  /** Each eight bits make an octet; what is left over makes one more, at its low end. */
  function Packed(bs: seq<bool>): (r: seq<byte>)
    ensures |r| == CeilDiv8(|bs|)
  {
    seq(CeilDiv8(|bs|), i requires 0 <= i < CeilDiv8(|bs|) => OctetOf(Whole(bs, i)))
  }

  function OctetOf(bs: seq<bool>): byte
    requires |bs| <= 8
  {
    Pow2Of8();
    Pow2Mono(|bs|, 8);
    FromBits(bs)
  }

  /** The octet of the next k bits. */
  method PackOne(bits: array<byte>, nBits: nat, bytes: array<byte>, i: nat, at: nat, k: nat) returns (next: nat)
    requires bits != bytes && nBits <= bits.Length && Binary(bits[..nBits]) && i < bytes.Length
    requires at == 8 * i < nBits && k == Min(8, nBits - at)
    modifies bytes
    ensures next == at + k && i < CeilDiv8(nBits)
    ensures bytes[..] == old(bytes[..])[i := Packed(Bools(bits[..nBits]))[i]]
  {
    hide FromBits, Bools, Packed, CeilDiv8, Binary;
    ghost var s := bits[..nBits];
    BinarySlice(s, at, at + k);
    assert bits[at..at + k] == s[at..at + k];
    PackedAt(s, i, s[at..at + k]);
    bytes[i], next := Bits2Value(bits, at, k);
  }

  lemma Stored(was: seq<byte>, packed: seq<byte>, i: nat)
    requires i < |packed| <= |was|
    ensures (packed[..i] + was[i..])[i := packed[i]] == packed[..i + 1] + was[i + 1..]
  {
  }

  /** Packs a bit array, and says how many octets that took. */
  method Pack(bits: array<byte>, nBits: nat, bytes: array<byte>) returns (nBytes: nat)
    requires bits != bytes && nBits <= bits.Length && Binary(bits[..nBits]) && CeilDiv8(nBits) <= bytes.Length
    modifies bytes
    ensures nBytes == CeilDiv8(nBits)
    ensures bytes[..] == Packed(Bools(bits[..nBits])) + old(bytes[nBytes..])
  {
    hide Bools, Packed, CeilDiv8, Binary;
    ghost var packed, was := Packed(Bools(bits[..nBits])), bytes[..];
    Octets(nBits);
    var at := 0;
    for i := 0 to nBits / 8
      invariant at == 8 * i && bytes[..] == packed[..i] + was[i..]
    {
      at := PackOne(bits, nBits, bytes, i, at, 8);
      Stored(was, packed, i);
    }
    nBytes := nBits / 8;
    if nBits % 8 > 0 {
      at := PackOne(bits, nBits, bytes, nBytes, at, nBits % 8);
      Stored(was, packed, nBytes);
      nBytes := nBytes + 1;
    }
    assert packed[..nBytes] == packed;
  }

  lemma Octets(n: nat)
    ensures CeilDiv8(n) == n / 8 + if n % 8 > 0 then 1 else 0
  {
  }

  lemma BinarySlice(s: seq<byte>, i: nat, j: nat)
    requires Binary(s) && i <= j <= |s|
    ensures Binary(s[i..j])
  {
  }

  lemma PackedAt(s: seq<byte>, i: nat, chunk: seq<byte>)
    requires 8 * i < |s| && chunk == s[8 * i..Min(8 * i + 8, |s|)]
    ensures i < CeilDiv8(|s|) && Packed(Bools(s))[i] == FromBits(Bools(chunk))
    ensures 0 <= FromBits(Bools(chunk)) < 256
  {
    hide FromBits;
    assert Whole(Bools(s), i) == Bools(chunk);
  }

  /** Eight bits to the octet, most significant first. */
  method Unpack(bytes: array<byte>, nBytes: nat, bits: array<byte>)
    requires bits != bytes && nBytes <= bytes.Length && 8 * nBytes <= bits.Length
    modifies bits
    ensures bits[..] == Flags(OctetBits(bytes[..nBytes])) + old(bits[8 * nBytes..])
  {
    hide ToBits, OctetBits;
    var at := 0;
    ghost var bs, was := bytes[..nBytes], bits[..];
    NoOctets();
    for i := 0 to nBytes
      invariant at == 8 * i
      invariant bits[..] == Flags(OctetBits(bs[..i])) + was[8 * i..]
    {
      OctetBitsAppend(bs[..i], bs[i]);
      assert bs[..i + 1] == bs[..i] + [bs[i]];
      FlagsConcat(OctetBits(bs[..i]), ToBits(bs[i], 8));
      at := Value2Bits(bytes[i], bits, at, 8);
    }
    assert bs[..nBytes] == bs;
  }

  lemma NoOctets()
    ensures Flags(OctetBits([])) == []
  {
  }

  lemma FlagsConcat(a: seq<bool>, b: seq<bool>)
    ensures Flags(a + b) == Flags(a) + Flags(b)
  {
  }

  // ----- the two are each other's inverse -----

  /** Packing what was unpacked gives the octets back. */
  lemma PackOfUnpack(bytes: seq<byte>)
    ensures Packed(OctetBits(bytes)) == bytes
  {
    hide OctetBits, FromBits, ToBits;
    var bs := OctetBits(bytes);
    forall i: nat | i < |bytes|
      ensures Packed(bs)[i] == bytes[i]
    {
      OctetBitsAt(bytes, i);
      assert Whole(bs, i) == ToBits(bytes[i], 8);
      FromToBits(bytes[i], 8);
      Pow2Of8();
      LowExact(bytes[i], 8);
    }
  }

  /** Unpacking what was packed gives whole octets of bits back. */
  lemma {:induction false} UnpackOfPack(bs: seq<bool>)
    requires |bs| % 8 == 0
    ensures OctetBits(Packed(bs)) == bs
    decreases |bs|
  {
    hide FromBits, ToBits;
    if bs != [] {
      var n := |bs| - 8;
      UnpackOfPack(bs[..n]);
      ToFromBits(bs[n..]);
      PackedLast(bs, n);
      OctetBitsAppend(Packed(bs[..n]), OctetOf(bs[n..]));
    }
  }

  lemma PackedLast(bs: seq<bool>, n: nat)
    requires |bs| == n + 8 && n % 8 == 0
    ensures Packed(bs) == Packed(bs[..n]) + [OctetOf(bs[n..])]
  {
    hide FromBits, OctetOf;
    forall i: nat | i < n / 8
      ensures Packed(bs)[i] == Packed(bs[..n])[i]
    {
      assert Whole(bs, i) == Whole(bs[..n], i);
    }
    assert Whole(bs, n / 8) == bs[n..];
  }

  /** Packing a bit array and unpacking the octets gives the array back exactly when it fills
      whole octets. */
  method PackThenUnpack(bits: array<byte>, nBits: nat) returns (back: seq<byte>)
    requires nBits <= bits.Length && Binary(bits[..nBits])
    ensures back == bits[..nBits] <==> nBits % 8 == 0
  {
    hide Packed, OctetBits, Bools, Binary, Flags, CeilDiv8;
    ghost var s := bits[..nBits];
    Octets(nBits);
    var bytes := new byte[CeilDiv8(nBits)];
    var nBytes := Pack(bits, nBits, bytes);
    assert bytes[..nBytes] == Packed(Bools(s));
    var out := new byte[8 * nBytes];
    Unpack(bytes, nBytes, out);
    back := out[..];
    assert back == Flags(OctetBits(Packed(Bools(s))));
    if nBits % 8 == 0 {
      UnpackOfPack(Bools(s));
      FlagsOfBools(s);
    }
  }

  /** Unpacking octets and packing the bits gives the octets back. */
  method UnpackThenPack(bytes: array<byte>, nBytes: nat) returns (back: seq<byte>)
    requires nBytes <= bytes.Length
    ensures back == bytes[..nBytes]
  {
    hide Packed, OctetBits, Bools, Binary, Flags;
    ghost var s := bytes[..nBytes];
    var bits := new byte[8 * nBytes];
    Unpack(bytes, nBytes, bits);
    assert bits[..8 * nBytes] == bits[..] == Flags(OctetBits(s));
    BoolsOfFlags(OctetBits(s));
    var out := new byte[CeilDiv8(8 * nBytes)];
    var n := Pack(bits, 8 * nBytes, out);
    back := out[..];
    PackOfUnpack(s);
  }

  // ----- against the bit cursor -----

  /** What is left over after the last whole octet. */
  function Rest(bs: seq<bool>): seq<bool> { bs[|bs| - |bs| % 8..] }

  /** The octets the bit cursor leaves: the bits, and zeros up to the boundary. */
  ghost predicate CursorOctets(bs: seq<bool>, octets: seq<byte>) {
    |octets| == CeilDiv8(|bs|) && OctetBits(octets) == bs + Zeros(PadLen(|bs|))
  }

  lemma WholeOctetsAgree(bs: seq<bool>, octets: seq<byte>, i: nat)
    requires CursorOctets(bs, octets) && i < |bs| / 8
    ensures Packed(bs)[i] == octets[i]
  {
    hide OctetBits, FromBits, ToBits;
    OctetBitsAt(octets, i);
    assert Whole(bs, i) == (bs + Zeros(PadLen(|bs|)))[8 * i..8 * i + 8];
    FromToBits(octets[i], 8);
    Pow2Of8();
    LowExact(octets[i], 8);
  }

  lemma LastOctetSlice(bs: seq<bool>, z: seq<bool>, i: nat, t: nat)
    requires |bs| == 8 * i + t && |z| == 8 - t && t <= 8
    ensures (bs + z)[8 * i..8 * i + 8] == bs[8 * i..] + z
  {
  }

  lemma LastOctet(bs: seq<bool>, octets: seq<byte>, i: nat, t: nat)
    requires |bs| == 8 * i + t && 0 < t < 8 && |octets| == i + 1
    requires OctetBits(octets) == bs + Zeros(8 - t)
    ensures octets[i] == Shl(FromBits(bs[8 * i..]), 8 - t)
  {
    hide OctetBits, FromBits, ToBits, Shl, Zeros, Low, Pow2;
    var z := Zeros(8 - t);
    OctetBitsAt(octets, i);
    LastOctetSlice(bs, z, i, t);
    FromToBits(octets[i], 8);
    Pow2Of8();
    LowExact(octets[i], 8);
    FromBitsConcat(bs[8 * i..], z);
    FromBitsZeros(8 - t);
  }

  /** The two packers put the last few bits at opposite ends of the octet. */
  lemma LastOctetDiffers(bs: seq<bool>, octets: seq<byte>)
    requires CursorOctets(bs, octets) && |bs| % 8 > 0
    ensures |Packed(bs)| == |octets| == |bs| / 8 + 1
    ensures Packed(bs)[|bs| / 8] == FromBits(Rest(bs))
    ensures octets[|bs| / 8] == Shl(FromBits(Rest(bs)), 8 - |bs| % 8)
  {
    hide OctetBits, FromBits, ToBits, Shl, Zeros;
    var i, t := |bs| / 8, |bs| % 8;
    assert Whole(bs, i) == Rest(bs);
    LastOctet(bs, octets, i, t);
  }

  lemma {:induction false} ShlGrows(v: nat, k: nat)
    requires k > 0
    ensures Shl(v, k) == v <==> v == 0
  {
    ShlIsProduct(v, k);
    Pow2Mono(1, k);
    if v > 0 {
      ShlMore(v, k);
    }
  }

  lemma {:induction false} ShlMore(v: nat, k: nat)
    requires v > 0 && k > 0
    ensures Shl(v, k) > v
  {
    if k > 1 {
      ShlMore(v, k - 1);
    }
  }

  /** The packers write the same octets exactly when the bits fill whole octets, or those
      left over are all zero. */
  lemma PackersAgreeExactly(bs: seq<bool>, octets: seq<byte>)
    requires CursorOctets(bs, octets)
    ensures Packed(bs) == octets <==> |bs| % 8 == 0 || FromBits(Rest(bs)) == 0
  {
    hide Packed, CursorOctets, FromBits, Rest;
    SameSize(bs, octets);
    forall i: nat | i < |bs| / 8
      ensures Packed(bs)[i] == octets[i]
    {
      WholeOctetsAgree(bs, octets, i);
    }
    if |bs| % 8 > 0 {
      LastOctetDiffers(bs, octets);
      ShlGrows(FromBits(Rest(bs)), 8 - |bs| % 8);
    }
  }

  lemma SameSize(bs: seq<bool>, octets: seq<byte>)
    requires CursorOctets(bs, octets)
    ensures |octets| == |Packed(bs)| == |bs| / 8 + if |bs| % 8 > 0 then 1 else 0
  {
  }

  // ----- the same fields through both -----

  datatype Item = Item(value: nat, width: nat)

  function StreamOf(items: seq<Item>): seq<bool> {
    if items == [] then []
    else StreamOf(items[..|items| - 1]) + ToBits(items[|items| - 1].value, items[|items| - 1].width)
  }

  predicate Narrow(items: seq<Item>) {
    forall i :: 0 <= i < |items| ==> items[i].width <= 32
  }

  lemma StreamNext(items: seq<Item>, i: nat)
    requires i < |items|
    ensures StreamOf(items[..i + 1]) == StreamOf(items[..i]) + ToBits(items[i].value, items[i].width)
  {
    hide ToBits;
    assert items[..i + 1][..i] == items[..i];
  }

  lemma {:induction false} StreamGrows(items: seq<Item>, i: nat)
    requires i <= |items|
    ensures |StreamOf(items[..i])| <= |StreamOf(items)|
    decreases |items| - i
  {
    hide ToBits;
    if i == |items| {
      assert items[..i] == items;
    } else {
      StreamNext(items, i);
      StreamGrows(items, i + 1);
    }
  }

  /** Each field through the bit cursor. */
  method PackWithCursor(items: seq<Item>) returns (octets: seq<byte>)
    requires Narrow(items)
    ensures CursorOctets(StreamOf(items), octets)
  {
    hide BitRef.Valid, OctetBits, ToBits, StreamOf;
    var size := CeilDiv8(|StreamOf(items)|);
    var buf := new byte[size];
    var w := new BitRef(buf, size);
    StreamStart();
    assert items[..0] == [];
    for i := 0 to |items|
      invariant w.Valid() && w.buf == buf && w.max == size
      invariant w.written == StreamOf(items[..i])
    {
      StreamNext(items, i);
      StreamGrows(items, i + 1);
      var code := w.Pack(items[i].value, items[i].width);
    }
    assert items[..|items|] == items;
    Finished(w);
    octets := buf[..];
  }

  lemma StreamStart()
    ensures StreamOf([]) == []
  {
  }

  lemma Finished(w: BitRef)
    requires w.Valid() && w.max == w.buf.Length == CeilDiv8(|w.written|)
    ensures CursorOctets(w.written, w.buf[..])
  {
    hide OctetBits;
    assert w.EndOctet() == w.max;
    assert w.buf[..w.max] == w.buf[..];
  }

  /** Each field spread over a bit array, and that array packed. */
  method PackWithLiblte(items: seq<Item>) returns (octets: seq<byte>)
    requires Narrow(items)
    ensures octets == Packed(StreamOf(items))
  {
    hide ToBits, StreamOf, Packed;
    var n := |StreamOf(items)|;
    var bits, bytes := new byte[n], new byte[CeilDiv8(n)];
    StreamStart();
    assert items[..0] == [];
    var at := 0;
    for i := 0 to |items|
      invariant at == |StreamOf(items[..i])| <= n
      invariant bits[..at] == Flags(StreamOf(items[..i]))
    {
      ghost var so, bs := StreamOf(items[..i]), ToBits(items[i].value, items[i].width);
      StreamNext(items, i);
      StreamGrows(items, i + 1);
      FlagsConcat(so, bs);
      at := Value2Bits(items[i].value, bits, at, items[i].width);
      assert bits[..at] == Flags(so) + Flags(bs);
    }
    assert items[..|items|] == items;
    BoolsOfFlags(StreamOf(items));
    var size := Pack(bits, n, bytes);
    octets := bytes[..];
  }

  /** The packers agree on a list of fields exactly when its bits fill whole octets or the
      ones left over are zero. */
  method PackBothWays(items: seq<Item>) returns (cursor: seq<byte>, simple: seq<byte>)
    requires Narrow(items)
    ensures cursor == simple <==> |StreamOf(items)| % 8 == 0 || FromBits(Rest(StreamOf(items))) == 0
  {
    hide *;
    cursor := PackWithCursor(items);
    simple := PackWithLiblte(items);
    PackersAgreeExactly(StreamOf(items), cursor);
  }
}
