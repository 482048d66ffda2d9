/** The guards around an open type field, and the writers and readers built on them. */
module OpenFieldGuards {
  import opened BitSeq
  import opened BitRefs
  import opened CBitRefs
  import opened Wire
  import opened PerFormat
  import opened PerCodec
  import opened OpenFields

  /** Bits that complete the last octet, by the unsigned arithmetic of the source. */
  function Leftover(distance: nat): nat {
    7 - (distance + 0xFFFF_FFFF) % 0x1_0000_0000 % 8
  }

  lemma {:induction false} LeftoverIsPadding(distance: nat)
    requires distance < 0x1_0000_0000
    ensures Leftover(distance) == PadLen(distance)
  {
    hide PadLen;
    OneLess(distance);
    if distance > 0 {
      PadOneLess(distance);
    } else {
      assert PadLen(0) == 0 by { NothingToPad(); }
    }
  }

  lemma {:induction false} OneLess(d: nat)
    requires d < 0x1_0000_0000
    ensures (d + 0xFFFF_FFFF) % 0x1_0000_0000 == if d == 0 then 0xFFFF_FFFF else d - 1
  {
  }

  lemma {:induction false} PadOneLess(d: nat)
    requires d > 0
    ensures 7 - (d - 1) % 8 == PadLen(d)
  {
    hide PadLen;
    var k := 7 - (d - 1) % 8;
    assert d - 1 == 8 * ((d - 1) / 8) + (d - 1) % 8;
    assert d + k == 8 * ((d - 1) / 8 + 1);
  }

  lemma {:induction false} NothingToPad()
    ensures PadLen(0) == 0
  {
  }

  /** Redirects a cursor into a buffer of its own; closing it writes the field. */
  class PackGuard {
    var brefStart: BitRef
    var bref: BitRef
    var buffer: array<byte>
    const align: bool

    ghost predicate Valid()
      reads this, bref, brefStart, bref.buf, brefStart.buf
    {
      && bref != brefStart
      && bref.Valid() && bref.buf == buffer && bref.Cap() < 0x1_0000_0000
      && brefStart.Valid() && brefStart.buf != buffer
    }

    constructor (b: BitRef, align: bool, block: nat)
      requires b.Valid() && 8 * block < 0x1_0000_0000
      modifies b
      ensures Valid() && bref == b && this.align == align
      ensures fresh(brefStart) && fresh(buffer)
      ensures brefStart.buf == old(b.buf) && brefStart.max == old(b.max) && brefStart.written == old(b.written)
      ensures b.written == [] && b.Cap() == 8 * block
      ensures brefStart.buf[..] == old(b.buf[..])
    {
      bref, this.align := b, align;
      brefStart := new BitRef(b.buf, 0);
      buffer := new byte[block](_ => 0);
      new;
      hide BitRef.Valid;
      brefStart.Assign(b);
      b.Reset(buffer, block);
    }

    /** The destructor: pads the body, goes back to write its length and octets, and
        hands the cursor on.  No return code is looked at. */
    method Close()
      requires Valid()
      modifies bref, brefStart, bref.buf, brefStart.buf
      ensures bref.Valid() && bref.buf == old(brefStart.buf) && bref.max == old(brefStart.max)
      ensures bref.written
           == Fill(old(brefStart.written),
                   FieldBits(|old(brefStart.written)|, align, old(bref.written)), bref.Cap())
      ensures forall i | bref.EndOctet() <= i < bref.buf.Length :: bref.buf[i] == old(brefStart.buf[i])
    {
      hide BitRef.Valid, Fill, LengthEnc, OctetBits;
      ghost var w, cap := brefStart.written, brefStart.Cap();
      var nofBytes := PadBody();
      ghost var body := bref.written;
      var dropped := PackLength(brefStart, nofBytes, align);
      InARow(w, LengthEnc(|w|, nofBytes, align), Checked(body), cap);
      PackOctets(nofBytes);
      bref.Assign(brefStart);
    }

    method PadBody() returns (nofBytes: nat)
      requires Valid()
      modifies bref`ptr, bref`offset, bref`written, bref.buf
      ensures Valid() && brefStart.written == old(brefStart.written) && unchanged(brefStart.buf)
      ensures bref.written == PadToOctet(old(bref.written)) && nofBytes == |bref.written| / 8
    {
      hide BitRef.Valid, Zeros, ToBits, Fill, PadLen, Leftover;
      var distance := bref.Distance();
      LeftoverIsPadding(distance);
      PadFits(distance, bref.Cap());
      ToBitsZero(Leftover(distance));
      NothingOver(bref.written, distance, bref.Cap());
      var dropped := bref.Pack(0, Leftover(distance));
      distance := bref.Distance();
      nofBytes := distance / 8;
    }

    static lemma {:induction false} NothingOver(w: seq<bool>, pos: nat, cap: nat)
      requires |w| == pos && pos + PadLen(pos) <= cap
      ensures Fill(w, Zeros(PadLen(pos)), cap) == PadToOctet(w) && PadLen(pos) < 8
    {
    }

    /** The encoded octets, packed one by one behind the length. */
    method PackOctets(nofBytes: nat)
      requires Valid() && |bref.written| == 8 * nofBytes
      modifies brefStart`ptr, brefStart`offset, brefStart`written, brefStart.buf
      ensures Valid() && bref.written == old(bref.written) && brefStart.buf == old(brefStart.buf)
      ensures brefStart.max == old(brefStart.max) && brefStart.RestKept()
      ensures brefStart.written == Fill(old(brefStart.written), bref.written, brefStart.Cap())
    {
      hide OctetBits, ToBits, Fill;
      ghost var w, body := brefStart.written, buffer[..nofBytes];
      assert OctetBits(body) == bref.written by { WholeOctetsWritten(); }
      NothingFilled(w, brefStart.Cap());
      assert OctetBits(body[..0]) == [] by { NoOctets(body[..0]); }
      for i := 0 to nofBytes
        invariant Valid() && brefStart.RestKept() && buffer[..nofBytes] == body
        invariant brefStart.written == Fill(w, OctetBits(body[..i]), brefStart.Cap())
      {
        hide BitRef.Valid;
        OctetBitsAppend(body[..i], body[i]);
        assert body[..i + 1] == body[..i] + [body[i]];
        FillAppend(w, OctetBits(body[..i]), ToBits(body[i], 8), brefStart.Cap());
        var dropped := brefStart.Pack(buffer[i], 8);
      }
      assert body[..nofBytes] == body;
    }

    lemma {:induction false} WholeOctetsWritten()
      requires Valid() && |bref.written| % 8 == 0
      ensures OctetBits(buffer[..|bref.written| / 8]) == bref.written
    {
    }
  }

  lemma {:induction false} NoOctets(s: seq<byte>)
    requires s == []
    ensures OctetBits(s) == []
  {
  }

  /** Reads the length of a field; closing it skips what was left unread. */
  class UnpackGuard {
    var len: nat
    var ptr0: nat
    var offset0: nat
    var bref: CBitRef

    constructor (r: CBitRef, align: bool)
      requires r.Valid()
      modifies r`ptr, r`offset
      ensures r.Valid() && bref == r && old(r.Pos()) <= 8 * ptr0 + offset0 == r.Pos()
      ensures var o := OpenAt(r.stream, old(r.Pos()), align);
              r.Pos() == o.pos && (len == o.len || o.pos == |r.stream|)
    {
      hide CBitRef.Valid, DecLength, AlignUp;
      bref := r;
      var dropped, l := UnpackLength(r, align);
      len := l;
      ptr0, offset0 := r.ptr, r.offset;
    }

    method Close()
      requires bref.Valid() && 8 * ptr0 + offset0 <= bref.Pos()
      modifies bref`ptr, bref`offset
      ensures bref.Valid() && bref.Pos() == CloseAt(bref.stream, 8 * ptr0 + offset0, len, old(bref.Pos()))
    {
      hide CBitRef.Valid, FromBits;
      var consumed := bref.DistanceFrom(ptr0, offset0);
      var dropped, pad := bref.Unpack(UINT32.Wrap(len * 8 - consumed), 32);
    }
  }

  // ----- a writer -----

  /** What a writer leaves, and whether it got to its end. */
  datatype Writing = Writing(written: seq<bool>, ok: bool)

  /** A number that cannot be packed ends the writer, closing the fields it is inside; what a
      closing guard cannot write is lost without notice. */
  function Writes(w: seq<bool>, m: Msg, cap: nat, block: nat): (r: Writing)
    requires |w| <= cap
    ensures w <= r.written && |r.written| <= cap
    decreases m
  {
    match m
    case End => Writing(w, true)
    case Put(v, n, rest) =>
      if n >= 64 then Writing(w, false)
      else if |w| + n > cap then Writing(Fill(w, ToBits(v, n), cap), false)
      else Writes(Fill(w, ToBits(v, n), cap), rest, cap, block)
    case Open(align, body, rest) =>
      var b := Writes([], body, 8 * block, block);
      var w1 := Fill(w, FieldBits(|w|, align, b.written), cap);
      if b.ok then Writes(w1, rest, cap, block) else Writing(w1, false)
  }

  /** A message that fits, with room for it, is written whole. */
  lemma {:induction false} WrittenWhole(w: seq<bool>, m: Msg, cap: nat, block: nat)
    requires Fits(m, block) && |w| + |MsgBits(|w|, m)| <= cap
    ensures Writes(w, m, cap, block) == Writing(w + MsgBits(|w|, m), true)
    decreases m
  {
    hide ToBits, FieldBits, MsgBits, Fits, Fill, Writes;
    match m
    case End => EndWritten(w, cap, block);
    case Put(v, n, rest) =>
      PutWritten(w, m, block, cap);
      WrittenWhole(w + ToBits(v, n), rest, cap, block);
      PutWrites(w, m, cap, block);
    case Open(align, body, rest) =>
      OpenWritten(w, m, block, cap);
      BodyFits(align, body, block);
      WrittenWhole([], body, 8 * block, block);
      WrittenWhole(w + FieldBits(|w|, align, MsgBits(0, body)), rest, cap, block);
      OpenWrites(w, m, cap, block);
  }

  lemma {:induction false} EndWritten(w: seq<bool>, cap: nat, block: nat)
    requires |w| <= cap
    ensures Writes(w, End, cap, block) == Writing(w, true) && w + MsgBits(|w|, End) == w
  {
  }

  lemma {:induction false} PutWrites(w: seq<bool>, m: Msg, cap: nat, block: nat)
    requires m.Put? && |w| <= cap
    ensures Writes(w, m, cap, block)
         == if m.n >= 64 then Writing(w, false)
            else if |w| + m.n > cap then Writing(Fill(w, ToBits(m.v, m.n), cap), false)
            else Writes(Fill(w, ToBits(m.v, m.n), cap), m.rest, cap, block)
  {
    hide ToBits, Fill;
  }

  lemma {:induction false} OpenWrites(w: seq<bool>, m: Msg, cap: nat, block: nat)
    requires m.Open? && |w| <= cap
    ensures var b := Writes([], m.body, 8 * block, block);
            var w1 := Fill(w, FieldBits(|w|, m.align, b.written), cap);
            Writes(w, m, cap, block) == if b.ok then Writes(w1, m.rest, cap, block) else Writing(w1, false)
  {
    hide FieldBits, Fill;
  }

  lemma {:induction false} PutWritten(w: seq<bool>, m: Msg, block: nat, cap: nat)
    requires m.Put? && Fits(m, block) && |w| + |MsgBits(|w|, m)| <= cap
    ensures var w1 := w + ToBits(m.v, m.n); var more := MsgBits(|w1|, m.rest); var all := MsgBits(|w|, m);
            && m.n < 64 && Fits(m.rest, block)
            && w1 + more == w + all && |w1| + |more| == |w| + |all|
            && Fill(w, ToBits(m.v, m.n), cap) == w1
  {
    hide ToBits;
    assert w + (ToBits(m.v, m.n) + MsgBits(|w| + m.n, m.rest)) == w + ToBits(m.v, m.n) + MsgBits(|w| + m.n, m.rest);
  }

  lemma {:induction false} OpenWritten(w: seq<bool>, m: Msg, block: nat, cap: nat)
    requires m.Open? && Fits(m, block) && |w| + |MsgBits(|w|, m)| <= cap
    ensures var w1 := w + FieldBits(|w|, m.align, MsgBits(0, m.body));
            var more := MsgBits(|w1|, m.rest); var all := MsgBits(|w|, m);
            && Fits(Open(m.align, m.body, End), block) && Fits(m.rest, block)
            && w1 + more == w + all && |w1| + |more| == |w| + |all|
            && Fill(w, FieldBits(|w|, m.align, MsgBits(0, m.body)), cap) == w1
  {
    hide FieldBits, PadToOctet, ToBits, PadLen;
    var f := FieldBits(|w|, m.align, MsgBits(0, m.body));
    assert w + (f + MsgBits(|w| + |f|, m.rest)) == w + f + MsgBits(|w| + |f|, m.rest);
  }

  lemma {:induction false} BodyFits(align: bool, body: Msg, block: nat)
    requires Fits(Open(align, body, End), block)
    ensures Fits(body, block) && |MsgBits(0, body)| <= 8 * block
    ensures [] + MsgBits(0, body) == MsgBits(0, body)
  {
    hide MsgBits;
  }

  /** Every number is of at most 63 bits. */
  predicate Narrow(m: Msg) {
    match m
    case End => true
    case Put(_, n, rest) => n < 64 && Narrow(rest)
    case Open(_, body, rest) => Narrow(body) && Narrow(rest)
  }

  /** No number of the outermost level has any bits, and every body is written in its own buffer. */
  predicate Silent(m: Msg, block: nat) {
    match m
    case End => true
    case Put(_, n, rest) => n == 0 && Silent(rest, block)
    case Open(_, body, rest) => Writes([], body, 8 * block, block).ok && Silent(rest, block)
  }

  /** Success means that no number was too wide, at any depth. */
  lemma {:induction false} SuccessIsNarrow(w: seq<bool>, m: Msg, cap: nat, block: nat)
    requires |w| <= cap
    ensures Writes(w, m, cap, block).ok ==> Narrow(m)
    decreases m
  {
    hide Fill, FieldBits, ToBits, Writes;
    match m
    case End =>
    case Put(v, n, rest) =>
      PutWrites(w, m, cap, block);
      if n < 64 && |w| + n <= cap {
        SuccessIsNarrow(Fill(w, ToBits(v, n), cap), rest, cap, block);
      }
    case Open(align, body, rest) =>
      OpenWrites(w, m, cap, block);
      var b := Writes([], body, 8 * block, block);
      SuccessIsNarrow([], body, 8 * block, block);
      SuccessIsNarrow(Fill(w, FieldBits(|w|, align, b.written), cap), rest, cap, block);
  }

  /** A full buffer stays as it is: numbers fail there, while fields are lost without notice. */
  lemma {:induction false} LostWithoutNotice(w: seq<bool>, m: Msg, cap: nat, block: nat)
    requires |w| == cap
    ensures Writes(w, m, cap, block).written == w
    ensures Writes(w, m, cap, block).ok <==> Silent(m, block)
    decreases m
  {
    hide FieldBits, ToBits, Writes;
    match m
    case End => EndWritten(w, cap, block);
    case Put(v, n, rest) =>
      PutWrites(w, m, cap, block);
      assert Fill(w, ToBits(v, n), cap) == w;
      LostWithoutNotice(w, rest, cap, block);
    case Open(align, body, rest) =>
      OpenWrites(w, m, cap, block);
      var b := Writes([], body, 8 * block, block);
      assert Fill(w, FieldBits(|w|, align, b.written), cap) == w;
      LostWithoutNotice(w, rest, cap, block);
  }

  /** Numbers go straight into the cursor, each field between two guards. */
  method PackMsg(b: BitRef, m: Msg, block: nat) returns (code: Code)
    requires b.Valid() && 8 * block < 0x1_0000_0000
    modifies b, b.buf
    ensures b.Valid() && b.buf == old(b.buf) && b.max == old(b.max) && b.RestKept()
    ensures Writing(b.written, code == Success) == Writes(old(b.written), m, b.Cap(), block)
    decreases m, 0
  {
    hide BitRef.Valid, ToBits, FieldBits, Fill, Writes;
    match m
    case End =>
      EndWritten(b.written, b.Cap(), block);
      code := Success;
    case Put(v, n, rest) =>
      PutWrites(b.written, m, b.Cap(), block);
      NothingFilled(b.written, b.Cap());
      code := b.Pack(v, n);
      if code != Success { return; }
      code := PackMsg(b, rest, block);
    case Open(align, body, rest) =>
      OpenWrites(b.written, m, b.Cap(), block);
      code := PackOpen(b, align, body, block);
      if code != Success { return; }
      code := PackMsg(b, rest, block);
  }

  method PackOpen(b: BitRef, align: bool, body: Msg, block: nat) returns (code: Code)
    requires b.Valid() && 8 * block < 0x1_0000_0000
    modifies b, b.buf
    ensures b.Valid() && b.buf == old(b.buf) && b.max == old(b.max) && b.RestKept()
    ensures var r := Writes([], body, 8 * block, block);
            b.written == Fill(old(b.written), FieldBits(|old(b.written)|, align, r.written), b.Cap())
            && (code == Success) == r.ok
    decreases body, 1
  {
    hide BitRef.Valid, FieldBits, Fill, Writes;
    var guard := new PackGuard(b, align, block);
    code := PackMsg(b, body, block);
    guard.Close();
  }

  /** A reader: it asks for what its schema names, each field between two guards. */
  method UnpackMsg(r: CBitRef, sch: Schema) returns (code: Code, vals: seq<nat>)
    requires r.Valid()
    modifies r`ptr, r`offset
    ensures r.Valid() && old(r.Pos()) <= r.Pos()
    ensures var d := DecMsg(r.stream, old(r.Pos()), sch);
            vals == d.vals && r.Pos() == d.pos && code == if d.ok then Success else DecodeFail
    decreases sch
  {
    hide CBitRef.Valid, FromBits, OpenAt, CloseAt, DecMsg;
    match sch
    case Stop =>
      DecStop(r.stream, r.Pos());
      return Success, [];
    case Get(n, rest) =>
      var v, more;
      DecGet(r.stream, r.Pos(), sch);
      code, v := r.Unpack(n, 64);
      if code != Success { return code, []; }
      code, more := UnpackMsg(r, rest);
      vals := [v] + more;
    case Enter(align, body, rest) =>
      var more;
      DecEnter(r.stream, r.Pos(), sch);
      var guard := new UnpackGuard(r, align);
      ClosedAtEnd(r.stream, guard.len);
      ClosedAtEnd(r.stream, OpenAt(r.stream, old(r.Pos()), align).len);
      code, vals := UnpackMsg(r, body);
      guard.Close();
      if code != Success { return; }
      code, more := UnpackMsg(r, rest);
      vals := vals + more;
  }
}
