/** Whole runs of the codec: a message written through the write cursor and read back
    through the read cursor over the same buffer. */
module CodecRun {
  import opened BitSeq
  import opened BitRefs
  import opened CBitRefs
  import opened Wire
  import opened PerFormat
  import opened OpenFields
  import opened OpenFieldGuards

  /** The schema that asks for every number of the message. */
  function Everything(m: Msg): Schema {
    match m
    case End => Stop
    case Put(_, n, rest) => Get(n, Everything(rest))
    case Open(align, body, rest) => Enter(align, Everything(body), Everything(rest))
  }

  /** Every number of the message, cut to its width, in order. */
  function Numbers(m: Msg): seq<nat> {
    match m
    case End => []
    case Put(v, n, rest) => [Low(v, n)] + Numbers(rest)
    case Open(_, body, rest) => Numbers(body) + Numbers(rest)
  }

  lemma {:induction false} EverythingIsRead(pos: nat, m: Msg, block: nat)
    requires Fits(m, block)
    ensures Matches(m, Everything(m)) && Closes(m, Everything(m))
    ensures Consumed(pos, m, Everything(m)) == |MsgBits(pos, m)|
    ensures Asked(m, Everything(m)) == Numbers(m)
    decreases m
  {
    hide ToBits, Low, FieldBits, PadLen, Zeros;
    match m
    case End =>
    case Put(v, n, rest) => EverythingIsRead(pos + n, rest, block);
    case Open(align, body, rest) =>
      EverythingIsRead(0, body, block);
      EverythingIsRead(pos + |FieldBits(pos, align, MsgBits(0, body))|, rest, block);
  }

  /** The read cursor sees the written bits at the start of its stream. */
  lemma {:induction false} StreamOfBuffer(w: BitRef, r: CBitRef)
    requires w.Valid() && r.Valid() && r.buf == w.buf && w.EndOctet() <= r.max
    ensures At(r.stream, 0, w.written)
  {
    var e := w.EndOctet();
    var all := r.buf[..r.max];
    OctetBitsSlice(all, 0, e);
    assert all[0..e] == w.buf[..e];
    assert r.stream[0..8 * e] == w.written + Zeros(8 * e - |w.written|);
  }

  /** Packs the message into a fresh buffer of size octets and unpacks it again with
      the schema: the numbers come back, and each cursor stands where it should. */
  method PackThenUnpack(m: Msg, sch: Schema, size: nat, block: nat)
    returns (packed: Code, unpacked: Code, vals: seq<nat>, end: nat)
    requires 8 * block < 0x1_0000_0000 && Fits(m, block) && |MsgBits(0, m)| <= 8 * size
    requires Coherent(0, m) && Matches(m, sch) && Closes(m, sch)
    ensures packed == Success && unpacked == Success
    ensures vals == Asked(m, sch) && end == Consumed(0, m, sch)
  {
    hide BitRef.Valid, CBitRef.Valid, OctetBits, At, DecMsg, MsgBits, Fits;
    var buf := new byte[size];
    var w := new BitRef(buf, size);
    WrittenWhole([], m, 8 * size, block);
    packed := PackMsg(w, m, block);
    assert [] + MsgBits(0, m) == MsgBits(0, m);
    var r := new CBitRef(buf, size);
    StreamOfBuffer(w, r);
    MessageRoundTrip(r.stream, 0, m, sch, block);
    unpacked, vals := UnpackMsg(r, sch);
    end := 8 * r.ptr + r.offset;
  }

  /** Full decoding returns every number modulo its width and ends at the writer's
      own cursor. */
  method PackThenUnpackAll(m: Msg, size: nat, block: nat) returns (unpacked: Code, vals: seq<nat>, end: nat)
    requires 8 * block < 0x1_0000_0000 && Fits(m, block) && |MsgBits(0, m)| <= 8 * size
    requires AllAligned(m) || NothingAligned(m)
    ensures unpacked == Success && vals == Numbers(m) && end == |MsgBits(0, m)|
  {
    OneVariantIsCoherent(0, m, block);
    EverythingIsRead(0, m, block);
    var packed;
    packed, unpacked, vals, end := PackThenUnpack(m, Everything(m), size, block);
  }

  // ----- fields of mixed variants -----

  /** A body of aligned fields is written from the start of a buffer of its own.  Where it
      stands in the stream, every reader gets it back exactly on the octet boundaries. */
  lemma {:induction false} AlignedBodyExactly(p: nat, block: nat)
    requires block >= 1
    ensures (forall s, sch, m | p <= |s| && AllAligned(m) && Fits(m, block) && Matches(m, sch) && Closes(m, sch)
                             && At(s, p, MsgBits(0, m)) ::
               DecMsg(s, p, sch) == Reading(Asked(m, sch), p + Consumed(0, m, sch), true))
       <==> p % 8 == 0
  {
    hide At, MsgBits, Fits, AllAligned, Matches, Closes, Asked, Consumed, DecMsg;
    if p % 8 == 0 {
      forall s, sch, m | p <= |s| && AllAligned(m) && Fits(m, block) && Matches(m, sch) && Closes(m, sch)
                      && At(s, p, MsgBits(0, m))
        ensures DecMsg(s, p, sch) == Reading(Asked(m, sch), p + Consumed(0, m, sch), true)
      {
        AlignedBodyBack(s, p, m, sch, block);
      }
    } else {
      var m, sch := OneOctet(), Enter(true, Get(8, Stop), Stop);
      var s := Zeros(p) + MsgBits(0, m);
      OneOctetFollowed(block);
      AtConcat(Zeros(p), MsgBits(0, m), []);
      assert Zeros(p) + MsgBits(0, m) + [] == s;
      OffBoundaryRefused(s, p);
    }
  }

  /** A field of one octet. */
  function OneOctet(): Msg { Open(true, Put(1, 8, End), End) }

  lemma {:induction false} OneOctetFollowed(block: nat)
    requires block >= 1
    ensures var m, sch := OneOctet(), Enter(true, Get(8, Stop), Stop);
            && AllAligned(m) && Fits(m, block) && Matches(m, sch) && Closes(m, sch) && |MsgBits(0, m)| == 16
  {
    hide ToBits, FieldBits, PadToOctet, MsgBits, Fits, AllAligned, Matches, Closes, Consumed;
    InnerBits();
    SmallField(0, true, ToBits(1, 8));
    OneNumberFollowed(block);
    OneFieldFollowed(Put(1, 8, End), Get(8, Stop), block);
  }

  lemma {:induction false} OneFieldFollowed(body: Msg, sch: Schema, block: nat)
    requires AllAligned(body) && Fits(body, block) && Matches(body, sch) && Closes(body, sch)
    requires var n := |PadToOctet(MsgBits(0, body))|; n <= 8 * block && n < 8 * 16384 && n <= Consumed(0, body, sch) + 32
    ensures var m, sch1 := Open(true, body, End), Enter(true, sch, Stop);
            AllAligned(m) && Fits(m, block) && Matches(m, sch1) && Closes(m, sch1)
  {
    hide PadToOctet, MsgBits, Consumed;
  }

  lemma {:induction false} OneNumberFollowed(block: nat)
    ensures var m, sch := Put(1, 8, End), Get(8, Stop);
            AllAligned(m) && Fits(m, block) && Matches(m, sch) && Closes(m, sch) && Consumed(0, m, sch) == 8
  {
    hide ToBits, FieldBits, PadToOctet, MsgBits;
  }

  /** Off the boundary the length is looked for in the next octet, and then fewer than eight
      bits are left of the stream. */
  lemma {:induction false} OffBoundaryRefused(s: seq<bool>, p: nat)
    requires p % 8 != 0 && |s| == p + 16
    ensures !DecMsg(s, p, Enter(true, Get(8, Stop), Stop)).ok
  {
    hide DecMsg, FromBits, Shl, CloseAt;
    DecEnter(s, p, Enter(true, Get(8, Stop), Stop));
    var o := OpenAt(s, p, true);
    assert |s| - o.pos < 8;
    DecGet(s, o.pos, Get(8, Stop));
  }

  lemma {:induction false} AlignedBodyBack(s: seq<bool>, p: nat, m: Msg, sch: Schema, block: nat)
    requires p <= |s| && p % 8 == 0 && AllAligned(m) && Fits(m, block) && Matches(m, sch) && Closes(m, sch)
    requires At(s, p, MsgBits(0, m))
    ensures DecMsg(s, p, sch) == Reading(Asked(m, sch), p + Consumed(0, m, sch), true)
  {
    hide At, MsgBits, Fits, AllAligned, Matches, Closes, Asked, Consumed, DecMsg, Coherent;
    PhaseOnly(p, 0, m);
    ConsumedPhase(p, 0, m, sch);
    OneVariantIsCoherent(p, m, block);
    MessageRoundTrip(s, p, m, sch, block);
  }

  /** So coherence is no idle condition: one such field inside an unaligned one, placed off
      the boundary, is refused. */
  lemma {:induction false} MixedVariantsAreNotReadBack()
    ensures var m := Open(false, Open(true, Put(1, 8, End), End), End);
            var s := [false] + MsgBits(1, m);
            Fits(m, 2) && !Coherent(1, m) && !DecMsg(s, 1, Everything(m)).ok
  {
    hide DecMsg, DecLength, LengthBody, At, ToBits, MsgBits, Fits, Coherent;
    var m := Open(false, Open(true, Put(1, 8, End), End), End);
    MixedBits();
    var s := [false] + MsgBits(1, m);
    MixedStream(s);
    UnalignedLengthBody(s, 1, 2);
    LengthAcrossOctets(s);
    DecEnter(s, 1, Everything(m));
    DecEnter(s, 9, Enter(true, Get(8, Stop), Stop));
    assert OpenAt(s, 9, true) == Opened(25, 0);
    DecGet(s, 25, Get(8, Stop));
  }

  lemma {:induction false} MixedStream(s: seq<bool>)
    requires s == [false] + (ToBits(2, 8) + (ToBits(1, 8) + ToBits(1, 8)))
    ensures |s| == 25 && At(s, 1, LengthBody(2).bits) && |LengthBody(2).bits| == 8
    ensures s[16..24] == [true] + Zeros(7)
  {
    var one, two := ToBits(1, 8), ToBits(2, 8);
    assert one == Zeros(7) + [true];
    assert s[1..9] == two;
  }

  lemma {:induction false} MixedBits()
    ensures var inner := Open(true, Put(1, 8, End), End);
            && Fits(Open(false, inner, End), 2) && !Coherent(1, Open(false, inner, End))
            && MsgBits(1, Open(false, inner, End)) == ToBits(2, 8) + (ToBits(1, 8) + ToBits(1, 8))
  {
    hide ToBits, FieldBits;
    var one := ToBits(1, 8);
    InnerBits();
    SmallField(1, false, one + one);
    assert |PadToOctet(one + one)| == 16;
    assert MsgBits(25, End) == [];
  }

  lemma {:induction false} InnerBits()
    ensures MsgBits(0, Open(true, Put(1, 8, End), End)) == ToBits(1, 8) + ToBits(1, 8)
    ensures MsgBits(0, Put(1, 8, End)) == ToBits(1, 8)
  {
    hide ToBits, FieldBits;
    assert MsgBits(8, End) == [] && MsgBits(16, End) == [];
    SmallField(0, true, ToBits(1, 8));
  }

  lemma {:induction false} SmallField(pos: nat, align: bool, body: seq<bool>)
    requires |body| % 8 == 0 && |body| < 1024 && (align ==> pos % 8 == 0)
    ensures FieldBits(pos, align, body) == ToBits(|body| / 8, 8) + body && PadToOctet(body) == body
  {
    hide ToBits;
    assert Zeros(0) == [];
    assert body + [] == body;
  }

  /** The last bit of one octet and the first seven of the next read as 128. */
  lemma {:induction false} LengthAcrossOctets(s: seq<bool>)
    requires |s| == 25 && s[16..24] == [true] + Zeros(7)
    ensures DecLength(s, 9, true).Bad? && DecBits(s, AlignUp(9), 8, 32) == Got(128, 24)
  {
    hide FromBits;
    FromBitsConcat([true], Zeros(7));
    FromBitsZeros(7);
    BitOfFlag(true);
    assert Shl(1, 7) == 128;
  }

  /** Nor is it needed by every message: an empty aligned field may be found in the padding
      before it, and the field around it closes where it should for every number in it. */
  lemma {:induction false} MixedVariantsMayBeReadBack(s: seq<bool>, v: nat)
    requires var m := Open(false, Put(v, 1, Open(true, End, End)), End); At(s, 1, MsgBits(1, m))
    ensures var m := Open(false, Put(v, 1, Open(true, End, End)), End);
            |s| >= 25 && !Coherent(1, m) && DecMsg(s, 1, Everything(m)) == Reading([Low(v, 1)], 25, true)
  {
    hide DecMsg, DecLength, LengthBody, At, ToBits, MsgBits, Coherent;
    var m := Open(false, Put(v, 1, Open(true, End, End)), End);
    var sch := Enter(false, Get(1, Enter(true, Stop, Stop)), Stop);
    EmptyInsideBits(v);
    EmptyInsideStream(s, v);
    UnalignedLengthBody(s, 1, 2);
    AlignedLengthBody(s, 10, 0);
    DecEnter(s, 1, sch);
    OpenRead(s, 1, false);
    ReadBack(s, 9, v, 1, 64);
    DecGet(s, 9, Get(1, Enter(true, Stop, Stop)));
    DecEnter(s, 10, Enter(true, Stop, Stop));
    OpenRead(s, 10, true);
    DecStop(s, 24);
    DecStop(s, 25);
    assert CloseAt(s, 24, 0, 24) == 24 && CloseAt(s, 9, 2, 24) == 25;
    assert DecMsg(s, 10, Enter(true, Stop, Stop)) == Reading([], 24, true);
    assert DecMsg(s, 9, sch.body) == Reading([Low(v, 1)], 24, true);
    assert DecMsg(s, 1, sch) == Reading([Low(v, 1)], 25, true);
    assert Everything(Open(true, End, End)) == Enter(true, Stop, Stop);
    assert Everything(m.body) == sch.body;
  }

  lemma {:induction false} EmptyInsideBits(v: nat)
    ensures var m := Open(false, Put(v, 1, Open(true, End, End)), End);
            && !Coherent(1, m)
            && MsgBits(1, m) == ToBits(2, 8) + (ToBits(v, 1) + Zeros(7) + ToBits(0, 8))
  {
    hide ToBits, FieldBits;
    assert MsgBits(0, End) == MsgBits(16, End) == MsgBits(25, End) == [];
    SmallField(8, true, []);
    PaddedField(1);
    assert MsgBits(1, Open(true, End, End)) == Zeros(7) + ToBits(0, 8);
    var body := ToBits(v, 1) + Zeros(7) + ToBits(0, 8);
    var inner := Open(true, End, End);
    assert MsgBits(0, Put(v, 1, inner)) == ToBits(v, 1) + MsgBits(1, inner);
    assert ToBits(v, 1) + (Zeros(7) + ToBits(0, 8)) == body;
    SmallField(1, false, body);
    assert |PadToOctet(body)| == 16;
    assert !NothingAligned(inner);
    assert |LengthEnc(1, 2, false).bits| == 8;
  }

  /** An empty aligned field behind one bit. */
  lemma {:induction false} PaddedField(pos: nat)
    requires pos == 1
    ensures FieldBits(pos, true, []) == Zeros(7) + ToBits(0, 8)
  {
    hide ToBits;
    assert Zeros(0) == [];
    assert PadToOctet([]) == [];
  }

  lemma {:induction false} EmptyInsideStream(s: seq<bool>, v: nat)
    requires At(s, 1, ToBits(2, 8) + (ToBits(v, 1) + Zeros(7) + ToBits(0, 8)))
    ensures |s| >= 25 && At(s, 1, LengthBody(2).bits) && |LengthBody(2).bits| == 8
    ensures At(s, 9, ToBits(v, 1)) && At(s, 16, LengthBody(0).bits) && |LengthBody(0).bits| == 8
  {
    hide ToBits, Low;
    ToBitsZero(8);
    var two, tail := ToBits(2, 8), ToBits(v, 1) + Zeros(7) + ToBits(0, 8);
    AtSplit(s, 1, two, tail);
    AtSplit(s, 9, ToBits(v, 1) + Zeros(7), ToBits(0, 8));
    AtSplit(s, 9, ToBits(v, 1), Zeros(7));
    AtIs(s, 9, ToBits(v, 1) + Zeros(7));
    AtIs(s, 17, ToBits(0, 8));
    assert s[9..17][1..] == Zeros(7);
    forall i | 0 <= i < 8
      ensures !s[16..24][i]
    {
      assert s[16..24][i] == if i == 0 then s[9..17][7] else s[17..25][i - 1];
    }
    assert s[16..24] == Zeros(8);
  }
}
