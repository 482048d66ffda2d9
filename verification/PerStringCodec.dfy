/** The string encoders and decoders over the cursors. */
module PerStringCodec {
  import opened BitSeq
  import opened BitRefs
  import opened CBitRefs
  import opened Wire
  import opened PerFormat
  import opened PerCodec
  import opened PerStrings

  // ----- runs of characters -----

  lemma {:induction false} CharBitsConcat(a: seq<byte>, c: seq<byte>, b: nat)
    ensures CharBits(a + c, b) == CharBits(a, b) + CharBits(c, b)
  {
    hide ToBits;
    if c == [] {
      assert a + c == a;
    } else {
      var c' := c[..|c| - 1];
      assert (a + c)[..|a + c| - 1] == a + c';
      CharBitsConcat(a, c', b);
    }
  }

  /** Running out of room in the first i characters is running out of room in all. */
  lemma {:induction false} CharsSofar(w: seq<bool>, str: seq<byte>, i: nat, b: nat, cap: nat)
    requires |w| <= cap && i <= |str|
    ensures var t, all := Checked(CharBits(str[..i], b)), Checked(CharBits(str, b));
            if CodeOf(t, |w|, cap) == Success then Fill(w, t.bits, cap) == w + t.bits
            else Fill(w, all.bits, cap) == Fill(w, t.bits, cap) && CodeOf(all, |w|, cap) == EncodeFail
  {
    hide CharBits;
    assert str == str[..i] + str[i..];
    CharBitsConcat(str[..i], str[i..], b);
    var x, y := CharBits(str[..i], b), CharBits(str[i..], b);
    assert w + (x + y) == (w + x) + y;
  }

  lemma {:induction false} CharsStep(w: seq<bool>, str: seq<byte>, i: nat, b: nat, cap: nat)
    requires |w| <= cap && i < |str| && b < 64
    requires CodeOf(Checked(CharBits(str[..i], b)), |w|, cap) == Success
    ensures var t, t', f := Checked(CharBits(str[..i], b)), Checked(CharBits(str[..i + 1], b)), Field(str[i], b);
            && |w| + |t.bits| <= cap
            && Fill(w + t.bits, f.bits, cap) == Fill(w, t'.bits, cap)
            && CodeOf(f, |w| + |t.bits|, cap) == CodeOf(t', |w|, cap)
  {
    hide CharBits, Fill, ToBits;
    assert str[..i + 1] == str[..i] + [str[i]];
    CharBitsAppend(str[..i], str[i], b);
    Sequenced(w, Checked(CharBits(str[..i], b)), Field(str[i], b), cap);
  }

  method PackChars(b: BitRef, str: seq<byte>, width: nat) returns (code: Code)
    requires b.Valid() && width < 64
    modifies b`ptr, b`offset, b`written, b.buf
    ensures Emits(b, Checked(CharBits(str, width)), code)
  {
    hide BitRef.Valid, ToBits, CharBits, Fill, CodeOf, Field;
    ghost var w, cap := b.written, b.Cap();
    NoCharsYet(w, str, width, cap);
    for i := 0 to |str|
      invariant b.Valid() && b.RestKept() && b.written == w + CharBits(str[..i], width)
      invariant CodeOf(Checked(CharBits(str[..i], width)), |w|, cap) == Success
    {
      CharsStep(w, str, i, width, cap);
      CharsSofar(w, str, i + 1, width, cap);
      code := PackField(b, str[i], width);
      if code != Success { return; }
    }
    assert str[..|str|] == str;
    CharsSofar(w, str, |str|, width, cap);
    code := Success;
  }

  lemma {:induction false} NoCharsYet(w: seq<bool>, str: seq<byte>, b: nat, cap: nat)
    requires |w| <= cap
    ensures w == w + CharBits(str[..0], b) && CodeOf(Checked(CharBits(str[..0], b)), |w|, cap) == Success
  {
  }

  method UnpackChars(r: CBitRef, width: nat, n: nat) returns (code: Code, str: seq<byte>)
    requires r.Valid()
    modifies r`ptr, r`offset
    ensures r.Valid()
    ensures Reads(DecChars(r.stream, old(r.Pos()), width, n), code, str, r.Pos())
  {
    hide CBitRef.Valid, FromBits, DecChars, Pow2, CharBits;
    str := [];
    ghost var p0 := r.Pos();
    NoChars(r.stream, p0, width);
    for i := 0 to n
      invariant r.Valid()
      invariant DecChars(r.stream, p0, width, i) == Got(str, r.Pos())
    {
      var c;
      ghost var p := r.Pos();
      code, c := r.Unpack(width, 8);
      DecCharsNext(r.stream, p0, width, i);
      if code != Success {
        CharsStuck(r.stream, p0, width, i + 1, n);
        return;
      }
      str := str + [U8(c)];
    }
    code := Success;
  }

  lemma {:induction false} DecCharsNext(s: seq<bool>, pos: nat, b: nat, n: nat)
    ensures DecChars(s, pos, b, n + 1)
         == var front := DecChars(s, pos, b, n);
            if front.Bad? then Bad
            else
              var c := DecBits(s, front.pos, b, 8);
              if c.Bad? then Bad else Got(front.val + [U8(c.val)], c.pos)
  {
    hide DecBits, Pow2;
  }

  lemma {:induction false} CharsStuck(s: seq<bool>, pos: nat, b: nat, i: nat, n: nat)
    requires i <= n && DecChars(s, pos, b, i).Bad?
    ensures DecChars(s, pos, b, n).Bad?
  {
    hide DecBits, Pow2;
    if i < n {
      CharsStuck(s, pos, b, i, n - 1);
    }
  }

  // ----- unbounded octet string -----

  method PackOctetString(b: BitRef, data: seq<byte>, aligned: bool) returns (code: Code)
    requires b.Valid()
    modifies b`ptr, b`offset, b`written, b.buf
    ensures Emits(b, OctetStringEnc(|old(b.written)|, data, aligned), code)
  {
    hide BitRef.Valid, CharBits, LengthEnc, CodeOf, Enc.Then, Fill;
    LengthStrict(|b.written|, |data|, aligned);
    Sequenced(b.written, LengthEnc(|b.written|, |data|, aligned), Checked(CharBits(data, 8)), b.Cap());
    code := PackLength(b, |data|, aligned);
    if code != Success { return; }
    code := PackChars(b, data, 8);
  }

  method UnpackOctetString(r: CBitRef, aligned: bool) returns (code: Code, data: seq<byte>)
    requires r.Valid()
    modifies r`ptr, r`offset
    ensures r.Valid()
    ensures Reads(DecOctetString(r.stream, old(r.Pos()), aligned), code, data, r.Pos())
    ensures var s, q := r.stream, if aligned then AlignUp(old(r.Pos())) else old(r.Pos());
            q + 2 <= |s| && s[q] && s[q + 1] ==> code == DecodeFail
  {
    hide CBitRef.Valid, DecLength, DecChars, FromBits, AlignUp;
    var len;
    code, len := UnpackLength(r, aligned);
    if code != Success { return code, []; }
    code, data := UnpackChars(r, 8, len);
  }

  // ----- bit string -----

  method PackLengthPrefix(b: BitRef, len: nat, lb: nat, ub: nat, hasExt: bool, aligned: bool) returns (code: Code)
    requires b.Valid()
    modifies b`ptr, b`offset, b`written, b.buf
    ensures Emits(b, PrefixEnc(|old(b.written)|, len, lb, ub, hasExt, aligned), code)
  {
    hide BitRef.Valid, ToBits, Fill, CodeOf, Enc.Then, PrefixBody;
    RefusedCode(b.written, b.Cap());
    if hasExt && ub == UNBOUNDED {
      return EncodeFail;
    }
    var within := lb <= len <= ub;
    if !within && !hasExt {
      return EncodeFail;
    }
    if hasExt {
      Sequenced(b.written, Field(if within then 0 else 1, 1), PrefixBody(|b.written| + 1, len, lb, ub, aligned), b.Cap());
      code := PackField(b, if within then 0 else 1, 1);
      if code != Success { return; }
      assert lb == ub && !within ==> len != lb;
    }
    code := PackPrefixBody(b, len, lb, ub, aligned);
  }

  method PackPrefixBody(b: BitRef, len: nat, lb: nat, ub: nat, aligned: bool) returns (code: Code)
    requires b.Valid()
    modifies b`ptr, b`offset, b`written, b.buf
    ensures Emits(b, PrefixBody(|old(b.written)|, len, lb, ub, aligned), code)
  {
    hide BitRef.Valid, ToBits, Fill, CodeOf, Enc.Then, LengthEnc, CeilLog2, Pow2;
    var within := lb <= len <= ub;
    RefusedCode(b.written, b.Cap());
    if lb == ub && within {
      return Success;
    }
    if ub == UNBOUNDED || !within {
      code := PackLength(b, len, false);
      return;
    }
    var k := CeilLog2(ub - lb);
    Sequenced(b.written, Field(len - lb, k), if aligned then Pad(|b.written| + k) else NOTHING, b.Cap());
    code := PackField(b, len - lb, k);
    if code != Success { return; }
    RefusedCode(b.written, b.Cap());
    if aligned {
      assert k < 64 by { FieldCode(len - lb, k, |old(b.written)|, b.Cap()); }
      code := PackPad(b);
    }
  }

  method PackBitField(b: BitRef, buf: array<byte>, n: nat, lb: nat, ub: nat, aligned: bool) returns (code: Code)
    requires b.Valid() && buf != b.buf && buf.Length == NofOctets(n)
    modifies b`ptr, b`offset, b`written, b.buf
    ensures Emits(b, FieldEnc(|old(b.written)|, buf[..], n, lb, ub, aligned), code)
  {
    hide BitRef.Valid, ToBits, Fill, CodeOf, Enc.Then, BitField, Pad;
    RefusedCode(b.written, b.Cap());
    if n == 0 {
      return EncodeFail;
    }
    Sequenced(b.written, FieldPad(|b.written|, lb, ub, aligned), Checked(BitField(buf[..], n)), b.Cap());
    if aligned && (lb != ub || ub > 16) {
      code := PackOpenPad(b);
    }
    code := PackBits(b, buf, n);
  }

  /** Alignment that leaves the padding as it finds it, which is zero. */
  method PackOpenPad(b: BitRef) returns (code: Code)
    requires b.Valid()
    modifies b`ptr, b`offset, b`written, b.buf
    ensures Emits(b, Pad(|old(b.written)|), code) && code == Success
  {
    hide Fill, BitRef.Valid, PadLen, Zeros;
    PadFits(|b.written|, b.Cap());
    code := b.AlignBytes();
  }

  /** The bits of the i highest octets. */
  ghost function TopField(data: seq<byte>, n: nat, i: nat): seq<bool>
    requires 0 < n && |data| == NofOctets(n) && 0 < i <= |data|
  {
    var j := |data| - i;
    FieldOctets(n, j);
    BitField(data[j..], n - 8 * j)
  }

  lemma {:induction false} FieldOctets(n: nat, j: nat)
    requires j < NofOctets(n)
    ensures n > 8 * j && NofOctets(n - 8 * j) == NofOctets(n) - j
  {
  }

  lemma {:induction false} TopFieldFirst(data: seq<byte>, n: nat)
    requires 0 < n && |data| == NofOctets(n)
    ensures TopField(data, n, 1) == ToBits(data[|data| - 1], (n - 1) % 8 + 1)
    ensures TopField(data, n, |data|) == BitField(data, n)
  {
    hide ToBits;
    FieldOctets(n, |data| - 1);
    assert n - 8 * (|data| - 1) == (n - 1) % 8 + 1;
    assert data[0..] == data;
  }

  lemma {:induction false} TopFieldNext(data: seq<byte>, n: nat, i: nat)
    requires 0 < n && |data| == NofOctets(n) && 0 < i < |data|
    ensures TopField(data, n, i + 1) == TopField(data, n, i) + ToBits(data[|data| - 1 - i], 8)
  {
    hide ToBits, BitField;
    var j := |data| - i;
    FieldOctets(n, j);
    FieldOctets(n, j - 1);
    BitFieldStep(data[j - 1..], n - 8 * (j - 1));
    assert data[j - 1..][1..] == data[j..];
  }

  lemma {:induction false} TopFieldPrefix(data: seq<byte>, n: nat, i: nat)
    requires 0 < n && |data| == NofOctets(n) && 0 < i <= |data|
    ensures TopField(data, n, i) <= BitField(data, n)
    decreases |data| - i
  {
    hide ToBits, BitField, TopField;
    if i < |data| {
      TopFieldNext(data, n, i);
      TopFieldPrefix(data, n, i + 1);
    } else {
      TopFieldFirst(data, n);
    }
  }

  method PackBits(b: BitRef, buf: array<byte>, n: nat) returns (code: Code)
    requires b.Valid() && buf != b.buf && 0 < n && buf.Length == NofOctets(n)
    modifies b`ptr, b`offset, b`written, b.buf
    ensures Emits(b, Checked(BitField(buf[..], n)), code)
  {
    hide BitRef.Valid, ToBits, BitField, TopField, Fill, CodeOf;
    ghost var w, cap, data := b.written, b.Cap(), buf[..];
    var nOcts := buf.Length;
    TopFieldFirst(data, n);
    code := PackField(b, buf[nOcts - 1], (n - 1) % 8 + 1);
    TopSofar(w, data, n, 1, cap);
    if code != Success { return; }
    for i := 1 to nOcts
      invariant b.Valid() && b.RestKept() && buf[..] == data
      invariant b.written == w + TopField(data, n, i)
      invariant CodeOf(Checked(TopField(data, n, i)), |w|, cap) == Success
    {
      TopStep(w, data, n, i, cap);
      TopSofar(w, data, n, i + 1, cap);
      code := PackField(b, buf[nOcts - 1 - i], 8);
      if code != Success { return; }
    }
    TopSofar(w, data, n, nOcts, cap);
    code := Success;
  }

  lemma {:induction false} TopStep(w: seq<bool>, data: seq<byte>, n: nat, i: nat, cap: nat)
    requires |w| <= cap && 0 < n && |data| == NofOctets(n) && 0 < i < |data|
    requires CodeOf(Checked(TopField(data, n, i)), |w|, cap) == Success
    ensures var t, t', f := Checked(TopField(data, n, i)), Checked(TopField(data, n, i + 1)), Field(data[|data| - 1 - i], 8);
            && |w| + |t.bits| <= cap
            && Fill(w + t.bits, f.bits, cap) == Fill(w, t'.bits, cap)
            && CodeOf(f, |w| + |t.bits|, cap) == CodeOf(t', |w|, cap)
  {
    hide TopField, NofOctets, Fill, ToBits;
    TopFieldNext(data, n, i);
    Sequenced(w, Checked(TopField(data, n, i)), Field(data[|data| - 1 - i], 8), cap);
  }

  /** Running out of room in the i highest octets is running out of room in all. */
  lemma {:induction false} TopSofar(w: seq<bool>, data: seq<byte>, n: nat, i: nat, cap: nat)
    requires |w| <= cap && 0 < n && |data| == NofOctets(n) && 0 < i <= |data|
    ensures var t, all := Checked(TopField(data, n, i)), Checked(BitField(data, n));
            if CodeOf(t, |w|, cap) == Success then Fill(w, t.bits, cap) == w + t.bits
            else Fill(w, all.bits, cap) == Fill(w, t.bits, cap) && CodeOf(all, |w|, cap) == EncodeFail
  {
    hide TopField, BitField, NofOctets;
    TopFieldPrefix(data, n, i);
    var t, all := TopField(data, n, i), BitField(data, n);
    assert all == t + all[|t|..];
    assert w + (t + all[|t|..]) == (w + t) + all[|t|..];
  }

  method PackBitString(b: BitRef, buf: array<byte>, n: nat, lb: nat, ub: nat, hasExt: bool, aligned: bool) returns (code: Code)
    requires b.Valid() && buf != b.buf && buf.Length == NofOctets(n)
    modifies b`ptr, b`offset, b`written, b.buf
    ensures Emits(b, BitStringEnc(|old(b.written)|, buf[..], n, lb, ub, hasExt, aligned), code)
  {
    hide BitRef.Valid, Fill, CodeOf, Enc.Then, PrefixEnc, FieldEnc;
    ghost var data := buf[..];
    ghost var p := PrefixEnc(|b.written|, n, lb, ub, hasExt, aligned);
    Sequenced(b.written, p, FieldEnc(|b.written| + |p.bits|, data, n, lb, ub, aligned), b.Cap());
    code := PackLengthPrefix(b, n, lb, ub, hasExt, aligned);
    if code != Success { return; }
    assert buf[..] == data;
    code := PackBitField(b, buf, n, lb, ub, aligned);
  }

  method UnpackLengthPrefix(r: CBitRef, lb: nat, ub: nat, hasExt: bool, aligned: bool) returns (code: Code, len: nat)
    requires r.Valid() && lb <= UNBOUNDED
    modifies r`ptr, r`offset
    ensures r.Valid()
    ensures Reads(DecPrefix(r.stream, old(r.Pos()), lb, ub, hasExt, aligned), code, len, r.Pos())
  {
    hide CBitRef.Valid, FromBits, DecLength, DecConstrained;
    len := 0;
    var ext := 0;
    if hasExt {
      code, ext := r.Unpack(1, 8);
      if code != Success { return; }
    }
    if ub == UNBOUNDED || ext != 0 {
      code, len := UnpackLength(r, aligned);
    } else if lb == ub {
      return Success, lb;
    } else if ub >= 65536 {
      code, len := UnpackLength(r, aligned);
    } else {
      code, len := UnpackBoundedPrefix(r, lb, ub, aligned);
    }
  }

  method UnpackBoundedPrefix(r: CBitRef, lb: nat, ub: nat, aligned: bool) returns (code: Code, len: nat)
    requires r.Valid() && lb <= UNBOUNDED && ub < 65536
    modifies r`ptr, r`offset
    ensures r.Valid()
    ensures var d := DecConstrained(r.stream, old(r.Pos()), UINT32, lb, ub, aligned);
            if d.Got? then code == Success && len == UINT32.Wrap(d.val) && r.Pos() == d.pos else code == DecodeFail
  {
    hide CBitRef.Valid, DecConstrained;
    var n;
    code, n := UnpackConstrained(r, UINT32, lb, ub, aligned);
    len := UINT32.Wrap(n);
  }

  /** Fills buf from the n bits at the cursor, last octet first. */
  method UnpackBits(r: CBitRef, buf: array<byte>, n: nat) returns (code: Code)
    requires r.Valid() && buf != r.buf && 0 < n && buf.Length == NofOctets(n)
    modifies r`ptr, r`offset, buf
    ensures r.Valid()
    ensures code == if old(r.Pos()) + n <= |r.stream| then Success else DecodeFail
    ensures code == Success ==>
              && r.Pos() == old(r.Pos()) + n
              && buf[..] == FromBitField(r.stream[old(r.Pos())..r.Pos()])
  {
    hide CBitRef.Valid, FromBits, FromBitField, Pow2, NofOctets;
    ghost var p0 := r.Pos();
    OctetSplit(n);
    var nOcts, m, v := NofOctets(n), (n - 1) % 8 + 1, 0;
    code, v := r.Unpack(m, 8);
    if code != Success { return; }
    buf[nOcts - 1] := U8(v);
    TopOctet(r.stream, p0, m);
    assert buf[nOcts - 1..] == [U8(v)];
    code := UnpackLower(r, buf, nOcts, p0);
  }

  lemma OctetSplit(n: nat)
    requires n > 0
    ensures n == 8 * (NofOctets(n) - 1) + (n - 1) % 8 + 1
  {
  }

  /** The octets below the top one. */
  method UnpackLower(r: CBitRef, buf: array<byte>, nOcts: nat, ghost p0: nat) returns (code: Code)
    requires r.Valid() && buf != r.buf && 0 < nOcts == buf.Length && p0 < r.Pos()
    requires buf[nOcts - 1..] == FromBitField(r.stream[p0..r.Pos()])
    modifies r`ptr, r`offset, buf
    ensures r.Valid()
    ensures code == if old(r.Pos()) + 8 * (nOcts - 1) <= |r.stream| then Success else DecodeFail
    ensures code == Success ==>
              r.Pos() == old(r.Pos()) + 8 * (nOcts - 1) && buf[..] == FromBitField(r.stream[p0..r.Pos()])
  {
    hide CBitRef.Valid, FromBitField;
    ghost var p := r.Pos();
    for i := 1 to nOcts
      invariant r.Valid() && r.Pos() == p + 8 * (i - 1)
      invariant buf[nOcts - i..] == FromBitField(r.stream[p0..r.Pos()])
    {
      code := UnpackNextOctet(r, buf, nOcts - i, p0);
      if code != Success { return; }
    }
    assert buf[0..] == buf[..];
    code := Success;
  }

  /** One octet below those from j up, which hold the bits read since p0. */
  method UnpackNextOctet(r: CBitRef, buf: array<byte>, j: nat, ghost p0: nat) returns (code: Code)
    requires r.Valid() && buf != r.buf && 0 < j < buf.Length && p0 < r.Pos()
    requires buf[j..] == FromBitField(r.stream[p0..r.Pos()])
    modifies r`ptr, r`offset, buf
    ensures r.Valid()
    ensures code == if old(r.Pos()) + 8 <= |r.stream| then Success else DecodeFail
    ensures code == Success ==> r.Pos() == old(r.Pos()) + 8 && buf[j - 1..] == FromBitField(r.stream[p0..r.Pos()])
  {
    hide CBitRef.Valid, FromBits, FromBitField, Pow2;
    var v;
    ghost var p, upper := r.Pos(), buf[j..];
    code, v := r.Unpack(8, 8);
    if code != Success { return; }
    NextOctet(r.stream, p0, p);
    buf[j - 1] := U8(v);
    assert buf[j - 1..] == [U8(v)] + upper;
  }

  lemma {:induction false} TopOctet(s: seq<bool>, p: nat, m: nat)
    requires 0 < m <= 8 && p + m <= |s|
    ensures FromBitField(s[p..p + m]) == [U8(FromBits(s[p..p + m]))]
  {
  }

  lemma {:induction false} NextOctet(s: seq<bool>, p0: nat, p: nat)
    requires p0 < p && p + 8 <= |s|
    ensures FromBitField(s[p0..p + 8]) == [U8(FromBits(s[p..p + 8]))] + FromBitField(s[p0..p])
  {
    assert s[p0..p + 8] == s[p0..p] + s[p..p + 8];
    FieldStep(s[p0..p], s[p..p + 8]);
  }

  method UnpackBitField(r: CBitRef, buf: array<byte>, n: nat, lb: nat, ub: nat, aligned: bool) returns (code: Code)
    requires r.Valid() && buf != r.buf && buf.Length == NofOctets(n)
    modifies r`ptr, r`offset, buf
    ensures r.Valid()
    ensures match DecBitField(r.stream, old(r.Pos()), n, lb, ub, aligned)
            case Got(v, p) => code == Success && v == buf[..] && r.Pos() == p
            case Bad => code == DecodeFail
  {
    hide CBitRef.Valid, FromBitField, AlignUp;
    if n > 65536 {
      return DecodeFail;
    }
    if n == 0 {
      return Success;
    }
    if aligned && (lb != ub || ub > 16) {
      code := r.AlignBytes();
    }
    code := UnpackBits(r, buf, n);
  }

  method UnpackBitString(r: CBitRef, lb: nat, ub: nat, hasExt: bool, aligned: bool) returns (code: Code, n: nat, buf: array<byte>)
    requires r.Valid() && lb <= UNBOUNDED
    modifies r`ptr, r`offset
    ensures r.Valid() && fresh(buf)
    ensures match DecBitString(r.stream, old(r.Pos()), lb, ub, hasExt, aligned)
            case Got(v, p) => code == Success && v == BitString(n, buf[..]) && r.Pos() == p
            case Bad => code == DecodeFail
  {
    hide CBitRef.Valid, DecPrefix, DecBitField, NofOctets;
    code, n := UnpackLengthPrefix(r, lb, ub, hasExt, aligned);
    if code != Success {
      buf := new byte[0];
      return;
    }
    buf := new byte[NofOctets(n)](_ => 0);
    code := UnpackBitField(r, buf, n, lb, ub, aligned);
  }

  // ----- character strings -----

  method PackString(b: BitRef, str: seq<byte>, lb: nat, ub: nat, alb: nat, aub: nat, ext: bool, aligned: bool) returns (code: Code)
    requires b.Valid() && lb <= ub && CharWidth(lb, ub, aligned) < 64
    requires aub < 0x1_0000_0000_0000_0000
    modifies b`ptr, b`offset, b`written, b.buf
    ensures Emits(b, StringEnc(|old(b.written)|, str, lb, ub, alb, aub, ext, aligned), code)
  {
    hide BitRef.Valid, ToBits, Fill, CodeOf, Enc.Then, StringBody, CharWidth, StringAligned;
    if !(alb <= |str| <= aub) {
      RefusedCode(b.written, b.Cap());
      return EncodeFail;
    }
    var width := CharWidth(lb, ub, aligned);
    var octets := StringAligned(width, alb, aub, aligned);
    if ext {
      Sequenced(b.written, Field(0, 1), StringBody(|b.written| + 1, str, width, alb, aub, octets), b.Cap());
      code := PackField(b, 0, 1);
      if code != Success { return; }
    }
    code := PackStringBody(b, str, width, alb, aub, octets);
  }

  method PackStringBody(b: BitRef, str: seq<byte>, width: nat, alb: nat, aub: nat, octets: bool) returns (code: Code)
    requires b.Valid() && width < 64 && alb <= |str| <= aub < 0x1_0000_0000_0000_0000
    modifies b`ptr, b`offset, b`written, b.buf
    ensures Emits(b, StringBody(|old(b.written)|, str, width, alb, aub, octets), code)
  {
    hide BitRef.Valid, ToBits, BoundedLengthEnc, CharBits, Pad, Fill, CodeOf, Enc.Then, Unchecked;
    ghost var w, cap := b.written, b.Cap();
    ghost var l := if LengthEncoded(alb, aub) then BoundedLengthEnc(|w|, |str|, alb, aub, octets) else NOTHING;
    ghost var p := if octets then Pad(|w| + |l.bits|) else NOTHING;
    ghost var chars := Checked(CharBits(str, width));
    RefusedCode(w, cap);
    if alb != aub || aub >= 65536 {
      var dropped := PackBoundedLength(b, |str|, alb, aub, octets);
    }
    PadAfter(w, l, octets, cap);
    ghost var w1 := b.written;
    RefusedCode(w1, cap);
    if octets {
      var dropped := PackPad(b);
    }
    if !octets {
      assert l.bits + p.bits == l.bits;
    }
    LooseThenStrict(w, l, p, chars, cap);
    code := PackChars(b, str, width);
  }

  /** Padding at the cursor an unchecked emission really left, cut off or not. */
  lemma {:induction false} PadAfter(w: seq<bool>, l: Enc, octets: bool, cap: nat)
    requires |w| <= cap && cap % 8 == 0
    ensures var w1 := Fill(w, l.bits, cap);
            Fill(w1, Pad(|w1|).bits, cap) == Fill(w, l.bits + Pad(|w| + |l.bits|).bits, cap)
  {
    var w1 := Fill(w, l.bits, cap);
    PadFits(|w1|, cap);
    if |w| + |l.bits| <= cap {
      assert w + l.bits + Pad(|w1|).bits == w + (l.bits + Pad(|w1|).bits);
    } else {
      AlignedAfter(cap);
      var p := Pad(|w| + |l.bits|).bits;
      assert w + (l.bits + p) == w + l.bits + p;
      assert Pad(|w1|).bits == [];
    }
  }

  /** Unchecked length and padding, then the checked characters: what overran in
      the first two makes any character overrun too. */
  lemma {:induction false} LooseThenStrict(w: seq<bool>, l: Enc, p: Enc, c: Enc, cap: nat)
    requires |w| <= cap && Strict(c) && c.ok
    ensures var e := Unchecked(l).Then(Unchecked(p).Then(c));
            var w2 := Fill(w, l.bits + p.bits, cap);
            && Fill(w2, c.bits, cap) == Fill(w, e.bits, cap)
            && CodeOf(c, |w2|, cap) == CodeOf(e, |w|, cap)
  {
    FillAppend(w, l.bits + p.bits, c.bits, cap);
    assert (l.bits + p.bits) + c.bits == l.bits + (p.bits + c.bits);
  }

  method PackBoundedLength(b: BitRef, n: nat, lb: nat, ub: nat, aligned: bool) returns (code: Code)
    requires b.Valid() && lb <= n <= ub < 0x1_0000_0000_0000_0000
    modifies b`ptr, b`offset, b`written, b.buf
    ensures Emits(b, BoundedLengthEnc(|old(b.written)|, n, lb, ub, aligned), code)
  {
    hide BitRef.Valid, LengthEnc, ConstrainedEnc, Fill, CodeOf;
    if ub >= 65536 {
      code := PackLength(b, UINT32.Wrap(n), aligned);
    } else {
      code := PackConstrained(b, UINT64, n, lb, ub, aligned);
    }
  }

  /** Whether the decoder gets a length, or refuses the extension bit before it needs one. */
  predicate LengthReadable(s: seq<bool>, pos: nat, lb: nat, ub: nat, alb: nat, aub: nat, ext: bool, aligned: bool)
    requires lb <= ub
  {
    var x := if ext then DecBits(s, pos, 1, 8) else Got(0, pos);
    x.Got? && x.val == 0 && LengthEncoded(alb, aub) ==>
      DecBoundedLength(s, x.pos, alb, aub, StringAligned(CharWidth(lb, ub, aligned), alb, aub, aligned)).Got?
  }

  /** n0 is the size the target string has on entry.  A length that cannot be read
      is not noticed: only what a readable length leads to is promised. */
  method UnpackString(r: CBitRef, n0: nat, lb: nat, ub: nat, alb: nat, aub: nat, ext: bool, aligned: bool) returns (code: Code, str: seq<byte>)
    requires r.Valid() && lb <= ub && alb <= aub < 0x1_0000_0000_0000_0000
    modifies r`ptr, r`offset
    ensures r.Valid()
    ensures var d := DecString(r.stream, old(r.Pos()), n0, lb, ub, alb, aub, ext, aligned);
            LengthReadable(r.stream, old(r.Pos()), lb, ub, alb, aub, ext, aligned) ==>
              if d.Got? then code == Success && str == d.val && r.Pos() == d.pos else code == DecodeFail
    ensures ext && old(r.Pos()) < |r.stream| && r.stream[old(r.Pos())] ==> code == DecodeFail
  {
    hide CBitRef.Valid, FromBits, CharWidth, StringAligned, DecBoundedLength, DecChars, AlignUp;
    if r.Pos() < |r.stream| { BitValue(r.stream, r.Pos()); }
    var width := CharWidth(lb, ub, aligned);
    var octets := StringAligned(width, alb, aub, aligned);
    if ext {
      var isExt;
      code, isExt := r.Unpack(1, 8);
      if code != Success { return code, []; }
      if isExt != 0 { return DecodeFail, []; }
    }
    var n := n0;
    if LengthEncoded(alb, aub) {
      var dropped;
      dropped, n := UnpackBoundedLength(r, alb, aub, octets);
    }
    if octets {
      var dropped := r.AlignBytes();
    }
    code, str := UnpackChars(r, width, n);
  }

  method UnpackBoundedLength(r: CBitRef, lb: nat, ub: nat, aligned: bool) returns (code: Code, n: nat)
    requires r.Valid() && lb <= ub < 0x1_0000_0000_0000_0000
    modifies r`ptr, r`offset
    ensures r.Valid()
    ensures Reads(DecBoundedLength(r.stream, old(r.Pos()), lb, ub, aligned), code, n, r.Pos())
  {
    hide CBitRef.Valid, DecConstrained, DecLength;
    if ub >= 65536 {
      code, n := UnpackLength(r, aligned);
      return;
    }
    var v;
    code, v := UnpackConstrained(r, UINT64, lb, ub, aligned);
    n := UINT64.Wrap(v);
  }
}
