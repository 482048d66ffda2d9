/** Open type fields (ITU-T X.691 section 10.2): a field whose length is written in
    front of it once its body is known, nested to any depth. */
module OpenFields {
  import opened BitSeq
  import opened BitRefs
  import opened CBitRefs
  import opened Wire
  import opened PerFormat
  import PerWire
  import opened PerCodec

  /** What a writer does between two guards: numbers of given widths and fields with
      bodies of their own. */
  datatype Msg =
    | End
    | Put(v: nat, n: nat, rest: Msg)
    | Open(align: bool, body: Msg, rest: Msg)

  /** What a reader asks for.  It may stop anywhere, leaving the rest unread. */
  datatype Schema =
    | Stop
    | Get(n: nat, rest: Schema)
    | Enter(align: bool, body: Schema, rest: Schema)

  // ----- what is on the wire -----

  function PadToOctet(b: seq<bool>): (r: seq<bool>)
    ensures |r| % 8 == 0 && |r| == |b| + PadLen(|b|)
  {
    b + Zeros(PadLen(|b|))
  }

  /** Length prefix and padded body of a field. */
  function FieldBits(pos: nat, align: bool, body: seq<bool>): seq<bool> {
    LengthEnc(pos, |PadToOctet(body)| / 8, align).bits + PadToOctet(body)
  }

  /** The octets of the body are counted, rounded up, and the last one is filled with zeros. */
  lemma {:induction false} FieldOnWire(pos: nat, align: bool, body: seq<bool>)
    ensures var octets := (|body| + 7) / 8;
            var pad := seq(8 * octets - |body|, _ => false);
            FieldBits(pos, align, body) == LengthEnc(pos, octets, align).bits + (body + pad)
  {
    hide LengthEnc;
    var octets := (|body| + 7) / 8;
    assert PadToOctet(body) == body + seq(8 * octets - |body|, _ => false);
  }

  /** The message written at pos.  A body is written from the start of a buffer of its
      own, so its alignment is relative to that start. */
  function MsgBits(pos: nat, m: Msg): seq<bool>
    decreases m
  {
    match m
    case End => []
    case Put(v, n, rest) => ToBits(v, n) + MsgBits(pos + n, rest)
    case Open(align, body, rest) =>
      var f := FieldBits(pos, align, MsgBits(0, body));
      f + MsgBits(pos + |f|, rest)
  }

  /** Every number fits a packing, every body the buffer reserved for it and a length
      below 16384. */
  predicate Fits(m: Msg, block: nat) {
    match m
    case End => true
    case Put(_, n, rest) => n < 64 && Fits(rest, block)
    case Open(_, body, rest) =>
      && |PadToOctet(MsgBits(0, body))| <= 8 * block
      && |PadToOctet(MsgBits(0, body))| < 8 * 16384
      && Fits(body, block) && Fits(rest, block)
  }

  // ----- reading -----

  /** Where the closing guard leaves the cursor: it reads the unread bits of a field of
      len octets from start into a 32-bit target, and ignores a refusal. */
  function CloseAt(s: seq<bool>, start: nat, len: nat, p: nat): (q: nat)
    requires start <= p <= |s|
    ensures p <= q <= |s|
  {
    var unread := UINT32.Wrap(len * 8 - (p - start));
    if unread > 32 then p else Min(p + unread, |s|)
  }

  /** Where the opening guard leaves the cursor and what length it takes: it ignores a
      length that cannot be read, which leaves the cursor behind the bits that announce
      the unknown form, or at the end. */
  datatype Opened = Opened(pos: nat, len: nat)

  function OpenAt(s: seq<bool>, pos: nat, align: bool): (o: Opened)
    requires pos <= |s|
    ensures pos <= o.pos <= |s|
  {
    var l := DecLength(s, pos, align);
    if l.Got? then Opened(l.pos, l.val)
    else if !align then
      if pos + 2 <= |s| && s[pos] && s[pos + 1] then Opened(pos + 2, 0) else Opened(|s|, 0)
    else
      var o := DecBits(s, AlignUp(pos), 8, 32);
      if o.Got? && o.val >= 192 then Opened(o.pos, o.val - 128) else Opened(|s|, 0)
  }

  /** What a reader got, where it stands, and whether it got to its end. */
  datatype Reading = Reading(vals: seq<nat>, pos: nat, ok: bool)

  /** A number that cannot be read ends the reader, closing the fields it is inside. */
  function DecMsg(s: seq<bool>, pos: nat, sch: Schema): (d: Reading)
    requires pos <= |s|
    ensures pos <= d.pos <= |s|
    decreases sch
  {
    match sch
    case Stop => Reading([], pos, true)
    case Get(n, rest) =>
      var d := DecBits(s, pos, n, 64);
      if d.Bad? then Reading([], if n > 64 then pos else |s|, false)
      else
        var r := DecMsg(s, d.pos, rest);
        Reading([d.val] + r.vals, r.pos, r.ok)
    case Enter(align, body, rest) =>
      var o := OpenAt(s, pos, align);
      var b := DecMsg(s, o.pos, body);
      var p := CloseAt(s, o.pos, o.len, b.pos);
      if !b.ok then Reading(b.vals, p, false)
      else
        var r := DecMsg(s, p, rest);
        Reading(b.vals + r.vals, r.pos, r.ok)
  }

  /** Bits of the message, written at pos, that the schema walks over. */
  function Consumed(pos: nat, m: Msg, sch: Schema): nat
    requires Matches(m, sch)
    decreases sch
  {
    match sch
    case Stop => 0
    case Get(n, rest) => n + Consumed(pos + n, m.rest, rest)
    case Enter(_, body, rest) =>
      var f := |FieldBits(pos, m.align, MsgBits(0, m.body))|;
      f + Consumed(pos + f, m.rest, rest)
  }

  /** The schema follows the message as far as it goes. */
  predicate Matches(m: Msg, sch: Schema) {
    match sch
    case Stop => true
    case Get(n, rest) => m.Put? && m.n == n && n <= 64 && Matches(m.rest, rest)
    case Enter(align, body, rest) => m.Open? && m.align == align && Matches(m.body, body) && Matches(m.rest, rest)
  }

  /** In every field it enters, the schema leaves at most 32 bits unread. */
  predicate Closes(m: Msg, sch: Schema)
    requires Matches(m, sch)
  {
    match sch
    case Stop => true
    case Get(_, rest) => Closes(m.rest, rest)
    case Enter(_, body, rest) =>
      && |PadToOctet(MsgBits(0, m.body))| <= Consumed(0, m.body, body) + 32
      && Closes(m.body, body) && Closes(m.rest, rest)
  }

  /** The numbers the schema asks for. */
  function Asked(m: Msg, sch: Schema): seq<nat>
    requires Matches(m, sch)
  {
    match sch
    case Stop => []
    case Get(n, rest) => [Low(m.v, n)] + Asked(m.rest, rest)
    case Enter(_, body, rest) => Asked(m.body, body) + Asked(m.rest, rest)
  }

  // ----- alignment inside bodies -----

  predicate NothingAligned(m: Msg) {
    match m
    case End => true
    case Put(_, _, rest) => NothingAligned(rest)
    case Open(align, body, rest) => !align && NothingAligned(body) && NothingAligned(rest)
  }

  /** Bodies that align inside start on an octet boundary. */
  predicate Coherent(pos: nat, m: Msg)
    decreases m
  {
    match m
    case End => true
    case Put(_, n, rest) => Coherent(pos + n, rest)
    case Open(align, body, rest) =>
      var f := |FieldBits(pos, align, MsgBits(0, body))|;
      var start := pos + |LengthEnc(pos, |PadToOctet(MsgBits(0, body))| / 8, align).bits|;
      && (start % 8 == 0 || NothingAligned(body))
      && Coherent(0, body) && Coherent(pos + f, rest)
  }

  /** Positions at the same place within an octet. */
  predicate SamePhase(p: nat, q: nat) { p % 8 == q % 8 }

  lemma {:induction false} PhaseShift(p: nat, q: nat, n: nat)
    requires SamePhase(p, q)
    ensures SamePhase(p + n, q + n)
  {
  }

  /** The bits depend on the position only through the octet phase, and not at all if
      nothing aligns. */
  lemma {:induction false} PhaseOnly(p: nat, q: nat, m: Msg)
    requires SamePhase(p, q) || NothingAligned(m)
    ensures MsgBits(p, m) == MsgBits(q, m)
    decreases m
  {
    hide ToBits, FieldBits, SamePhase;
    match m
    case End =>
    case Put(v, n, rest) =>
      if SamePhase(p, q) { PhaseShift(p, q, n); }
      PhaseOnly(p + n, q + n, rest);
    case Open(align, body, rest) =>
      FieldPhase(p, q, align, MsgBits(0, body));
      var f := |FieldBits(p, align, MsgBits(0, body))|;
      if SamePhase(p, q) { PhaseShift(p, q, f); }
      PhaseOnly(p + f, q + f, rest);
  }

  lemma {:induction false} FieldPhase(p: nat, q: nat, align: bool, body: seq<bool>)
    requires SamePhase(p, q) || !align
    ensures FieldBits(p, align, body) == FieldBits(q, align, body)
  {
    hide LengthEnc, PadToOctet;
    LengthPhase(p, q, |PadToOctet(body)| / 8, align);
  }

  lemma {:induction false} LengthPhase(p: nat, q: nat, n: nat, align: bool)
    requires SamePhase(p, q) || !align
    ensures LengthEnc(p, n, align) == LengthEnc(q, n, align)
  {
    hide LengthBody;
  }

  /** An aligned length ends on an octet boundary. */
  lemma {:induction false} AlignedStart(pos: nat, n: nat)
    requires n < 16384
    ensures (pos + |LengthEnc(pos, n, true).bits|) % 8 == 0
  {
    hide LengthBody;
  }

  /** Nesting is coherent when the aligned variant, or the unaligned one, is used
      throughout. */
  lemma {:induction false} OneVariantIsCoherent(pos: nat, m: Msg, block: nat)
    requires Fits(m, block) && (AllAligned(m) || NothingAligned(m))
    ensures Coherent(pos, m)
    decreases m
  {
    hide LengthEnc, PadToOctet, FieldBits, MsgBits;
    match m
    case End =>
    case Put(v, n, rest) => OneVariantIsCoherent(pos + n, rest, block);
    case Open(align, body, rest) =>
      if align {
        AlignedStart(pos, |PadToOctet(MsgBits(0, body))| / 8);
      }
      OneVariantIsCoherent(0, body, block);
      OneVariantIsCoherent(pos + |FieldBits(pos, align, MsgBits(0, body))|, rest, block);
  }

  predicate AllAligned(m: Msg) {
    match m
    case End => true
    case Put(_, _, rest) => AllAligned(rest)
    case Open(align, body, rest) => align && AllAligned(body) && AllAligned(rest)
  }

  lemma {:induction false} CoherentPhase(p: nat, q: nat, m: Msg)
    requires Coherent(p, m)
    requires SamePhase(p, q) || NothingAligned(m)
    ensures Coherent(q, m)
    decreases m
  {
    hide ToBits, LengthEnc, FieldBits, PadToOctet, SamePhase, MsgBits;
    match m
    case End =>
    case Put(v, n, rest) =>
      if SamePhase(p, q) { PhaseShift(p, q, n); }
      CoherentPhase(p + n, q + n, rest);
    case Open(align, body, rest) =>
      FieldPhase(p, q, align, MsgBits(0, body));
      var f := |FieldBits(p, align, MsgBits(0, body))|;
      if SamePhase(p, q) { PhaseShift(p, q, f); }
      CoherentPhase(p + f, q + f, rest);
      StartPhase(p, q, |PadToOctet(MsgBits(0, body))| / 8, align, body);
  }

  lemma {:induction false} StartPhase(p: nat, q: nat, n: nat, align: bool, body: Msg)
    requires SamePhase(p, q) || (!align && NothingAligned(body))
    requires (p + |LengthEnc(p, n, align).bits|) % 8 == 0 || NothingAligned(body)
    ensures (q + |LengthEnc(q, n, align).bits|) % 8 == 0 || NothingAligned(body)
  {
    hide LengthEnc;
    LengthPhase(p, q, n, align);
  }

  lemma {:induction false} ConsumedPhase(p: nat, q: nat, m: Msg, sch: Schema)
    requires Matches(m, sch)
    requires SamePhase(p, q) || NothingAligned(m)
    ensures Consumed(p, m, sch) == Consumed(q, m, sch)
    decreases sch
  {
    hide FieldBits, SamePhase, MsgBits;
    match sch
    case Stop =>
    case Get(n, rest) =>
      if SamePhase(p, q) { PhaseShift(p, q, n); }
      ConsumedPhase(p + n, q + n, m.rest, rest);
    case Enter(_, body, rest) =>
      FieldPhase(p, q, m.align, MsgBits(0, m.body));
      var f := |FieldBits(p, m.align, MsgBits(0, m.body))|;
      if SamePhase(p, q) { PhaseShift(p, q, f); }
      ConsumedPhase(p + f, q + f, m.rest, rest);
  }

  lemma {:induction false} ConsumedWithin(pos: nat, m: Msg, sch: Schema)
    requires Matches(m, sch)
    ensures Consumed(pos, m, sch) <= |MsgBits(pos, m)|
    decreases sch
  {
    hide ToBits, LengthEnc, PadToOctet, Zeros, PadLen;
    match sch
    case Stop =>
    case Get(n, rest) => ConsumedWithin(pos + n, m.rest, rest);
    case Enter(_, body, rest) =>
      ConsumedWithin(pos + |FieldBits(pos, m.align, MsgBits(0, m.body))|, m.rest, rest);
  }

  // ----- the closing guard -----

  /** From inside a field of len octets, the closing guard reaches its end exactly when
      at most 32 bits are left; beyond that it does not move at all. */
  lemma {:induction false} ClosesExactly(s: seq<bool>, start: nat, len: nat, p: nat)
    requires start <= p <= start + 8 * len <= |s| && len < 0x1000_0000
    ensures CloseAt(s, start, len, p) == start + 8 * len <==> start + 8 * len - p <= 32
    ensures start + 8 * len - p > 32 ==> CloseAt(s, start, len, p) == p
  {
  }

  /** Wherever the reader stands and the stream ends: a reader past the field stays there, and one
      at most 32 bits short of its end goes on to it or to the end of the stream. */
  lemma {:induction false} ClosesAt(s: seq<bool>, start: nat, len: nat, p: nat)
    requires start <= p <= |s| && len < 0x1000_0000 && p - start < 0x8000_0000
    ensures var end := start + 8 * len;
            CloseAt(s, start, len, p) == if p > end || end - p > 32 then p else Min(end, |s|)
  {
  }

  /** What opening a field makes of any stream: a length of one octet or two, or none, with the
      cursor behind the bits that announce a fragmented one, and what the aligned variant took
      for the length by then, or at the end. */
  lemma {:induction false} OpensAt(s: seq<bool>, pos: nat, align: bool)
    requires pos <= |s|
    ensures var q := if align then AlignUp(pos) else pos;
            OpenAt(s, pos, align) ==
              if q + 8 <= |s| && !s[q] then Opened(q + 8, FromBits(s[q + 1..q + 8]))
              else if q + 16 <= |s| && s[q] && !s[q + 1] then Opened(q + 16, FromBits(s[q + 2..q + 16]))
              else if align && q + 8 <= |s| && s[q] && s[q + 1] then Opened(q + 8, 64 + FromBits(s[q + 2..q + 8]))
              else if !align && q + 2 <= |s| && s[q] && s[q + 1] then Opened(q + 2, 0)
              else Opened(|s|, 0)
  {
    hide FromBits, AlignUp, DecLength;
    PerWire.LengthDecoded(s, pos, align);
    var q := if align then AlignUp(pos) else pos;
    if align && q + 8 <= |s| {
      PerWire.FirstOctet(s, q);
    }
  }

  /** A field opened at the very end is closed there, whatever its length was taken for. */
  lemma {:induction false} ClosedAtEnd(s: seq<bool>, len: nat)
    ensures CloseAt(s, |s|, len, |s|) == |s|
  {
  }

  // ----- one step of a reader -----

  lemma {:induction false} DecStop(s: seq<bool>, pos: nat)
    requires pos <= |s|
    ensures DecMsg(s, pos, Stop) == Reading([], pos, true)
  {
  }

  lemma {:induction false} DecGet(s: seq<bool>, pos: nat, sch: Schema)
    requires sch.Get? && pos <= |s|
    ensures var d := DecBits(s, pos, sch.n, 64);
            DecMsg(s, pos, sch) == if d.Bad? then Reading([], if sch.n > 64 then pos else |s|, false)
                                   else var r := DecMsg(s, d.pos, sch.rest); Reading([d.val] + r.vals, r.pos, r.ok)
  {
    hide FromBits;
  }

  lemma {:induction false} DecEnter(s: seq<bool>, pos: nat, sch: Schema)
    requires sch.Enter? && pos <= |s|
    ensures var o := OpenAt(s, pos, sch.align); var b := DecMsg(s, o.pos, sch.body);
            var p := CloseAt(s, o.pos, o.len, b.pos);
            DecMsg(s, pos, sch) == if !b.ok then Reading(b.vals, p, false)
                                   else var r := DecMsg(s, p, sch.rest); Reading(b.vals + r.vals, r.pos, r.ok)
  {
    hide OpenAt, CloseAt;
  }

  // ----- round trip -----

  /** Reading an encoded message through any schema that follows it, and leaves at
      most 32 bits unread in each field, gives the numbers asked for and ends exactly
      behind what was walked over, past the end of every field entered. */
  lemma {:induction false} MessageRoundTrip(s: seq<bool>, pos: nat, m: Msg, sch: Schema, block: nat)
    requires Fits(m, block) && Coherent(pos, m) && Matches(m, sch) && Closes(m, sch)
    requires pos <= |s| && At(s, pos, MsgBits(pos, m))
    ensures DecMsg(s, pos, sch) == Reading(Asked(m, sch), pos + Consumed(pos, m, sch), true)
    decreases sch
  {
    hide At, ToBits, DecMsg, Consumed, FieldBits, PadToOctet, CloseAt, MsgBits, Coherent, Closes, Fits, Asked;
    match sch
    case Stop => NothingRead(s, pos, m);
    case Get(n, rest) =>
      PutParts(pos, m, sch, block);
      AtSplit(s, pos, ToBits(m.v, n), MsgBits(pos + n, m.rest));
      AtIs(s, pos, ToBits(m.v, n));
      MessageRoundTrip(s, pos + n, m.rest, rest, block);
      ReadNumber(s, pos, m, sch);
    case Enter(align, body, rest) =>
      OpenParts(pos, m, sch, block);
      var f := FieldBits(pos, align, MsgBits(0, m.body));
      AtSplit(s, pos, f, MsgBits(pos + |f|, m.rest));
      AtIs(s, pos, f);
      var start := EnterField(s, pos, m, block);
      AtIs(s, start, MsgBits(start, m.body));
      MessageRoundTrip(s, start, m.body, body, block);
      MessageRoundTrip(s, pos + |f|, m.rest, rest, block);
      ReadField(s, pos, start, m, sch);
  }

  lemma {:induction false} PutParts(pos: nat, m: Msg, sch: Schema, block: nat)
    requires sch.Get? && Fits(m, block) && Coherent(pos, m) && Matches(m, sch) && Closes(m, sch)
    ensures MsgBits(pos, m) == ToBits(m.v, sch.n) + MsgBits(pos + sch.n, m.rest)
    ensures Fits(m.rest, block) && Coherent(pos + sch.n, m.rest) && Closes(m.rest, sch.rest)
  {
    hide ToBits;
  }

  lemma {:induction false} OpenParts(pos: nat, m: Msg, sch: Schema, block: nat)
    requires sch.Enter? && Fits(m, block) && Coherent(pos, m) && Matches(m, sch) && Closes(m, sch)
    ensures var f := FieldBits(pos, m.align, MsgBits(0, m.body));
            && MsgBits(pos, m) == f + MsgBits(pos + |f|, m.rest)
            && Coherent(pos + |f|, m.rest)
    ensures |PadToOctet(MsgBits(0, m.body))| < 8 * 16384
    ensures Fits(m.body, block) && Fits(m.rest, block) && Closes(m.body, sch.body) && Closes(m.rest, sch.rest)
  {
    hide FieldBits, PadToOctet, LengthEnc;
  }

  lemma {:induction false} NothingRead(s: seq<bool>, pos: nat, m: Msg)
    requires pos <= |s|
    ensures DecMsg(s, pos, Stop) == Reading(Asked(m, Stop), pos, true) && Consumed(pos, m, Stop) == 0
  {
  }

  lemma {:induction false} ReadNumber(s: seq<bool>, pos: nat, m: Msg, sch: Schema)
    requires sch.Get? && Matches(m, sch) && At(s, pos, ToBits(m.v, sch.n)) && pos + sch.n <= |s|
    requires DecMsg(s, pos + sch.n, sch.rest)
          == Reading(Asked(m.rest, sch.rest), pos + sch.n + Consumed(pos + sch.n, m.rest, sch.rest), true)
    ensures DecMsg(s, pos, sch) == Reading(Asked(m, sch), pos + Consumed(pos, m, sch), true)
  {
    hide At, ToBits, FromBits, DecBits, Low, Pow2, Asked, MsgBits, FieldBits, PadLen, CloseAt, DecLength;
    ReadBack(s, pos, m.v, sch.n, 64);
    AskedNumber(m, sch);
  }

  lemma {:induction false} AskedNumber(m: Msg, sch: Schema)
    requires sch.Get? && Matches(m, sch)
    ensures Asked(m, sch) == [Low(m.v, sch.n)] + Asked(m.rest, sch.rest)
  {
    hide Low;
  }

  lemma {:induction false} ReadField(s: seq<bool>, pos: nat, start: nat, m: Msg, sch: Schema)
    requires sch.Enter? && Matches(m, sch) && Closes(m, sch)
    requires |PadToOctet(MsgBits(0, m.body))| < 8 * 16384
    requires start == pos + |LengthEnc(pos, |PadToOctet(MsgBits(0, m.body))| / 8, m.align).bits|
    requires start % 8 == 0 || NothingAligned(m.body)
    requires At(s, pos, FieldBits(pos, m.align, MsgBits(0, m.body)))
    requires start <= |s| && pos + |FieldBits(pos, m.align, MsgBits(0, m.body))| <= |s|
    requires DecLength(s, pos, m.align) == Got(|PadToOctet(MsgBits(0, m.body))| / 8, start)
    requires DecMsg(s, start, sch.body)
          == Reading(Asked(m.body, sch.body), start + Consumed(start, m.body, sch.body), true)
    requires var e := pos + |FieldBits(pos, m.align, MsgBits(0, m.body))|;
             DecMsg(s, e, sch.rest) == Reading(Asked(m.rest, sch.rest), e + Consumed(e, m.rest, sch.rest), true)
    ensures DecMsg(s, pos, sch) == Reading(Asked(m, sch), pos + Consumed(pos, m, sch), true)
  {
    hide At, LengthEnc, DecLength, PadToOctet, FieldBits, CloseAt, MsgBits, Asked, DecMsg, OpenAt, Consumed, Closes, Matches;
    FieldMatches(m, sch);
    LeaveField(s, pos, start, m, sch);
    DecEnter(s, pos, sch);
    OpenRead(s, pos, m.align);
    ConsumedField(pos, m, sch);
    AskedField(m, sch);
  }

  lemma {:induction false} FieldMatches(m: Msg, sch: Schema)
    requires sch.Enter? && Matches(m, sch)
    ensures m.Open? && m.align == sch.align && Matches(m.body, sch.body) && Matches(m.rest, sch.rest)
  {
  }

  lemma {:induction false} OpenRead(s: seq<bool>, pos: nat, align: bool)
    requires pos <= |s|
    ensures var l := DecLength(s, pos, align); l.Got? ==> OpenAt(s, pos, align) == Opened(l.pos, l.val)
  {
    hide DecLength;
  }

  lemma {:induction false} ConsumedField(pos: nat, m: Msg, sch: Schema)
    requires sch.Enter? && Matches(m, sch)
    ensures var f := |FieldBits(pos, m.align, MsgBits(0, m.body))|;
            Consumed(pos, m, sch) == f + Consumed(pos + f, m.rest, sch.rest)
  {
    hide FieldBits, MsgBits;
  }

  lemma {:induction false} AskedField(m: Msg, sch: Schema)
    requires sch.Enter? && Matches(m, sch)
    ensures Asked(m, sch) == Asked(m.body, sch.body) + Asked(m.rest, sch.rest)
  {
    hide Low;
  }

  /** The opening guard finds the length and stands at the body. */
  lemma {:induction false} EnterField(s: seq<bool>, pos: nat, m: Msg, block: nat) returns (start: nat)
    requires m.Open? && Fits(m, block) && Coherent(pos, m)
    requires At(s, pos, FieldBits(pos, m.align, MsgBits(0, m.body)))
    ensures start == pos + |LengthEnc(pos, |PadToOctet(MsgBits(0, m.body))| / 8, m.align).bits|
    ensures DecLength(s, pos, m.align) == Got(|PadToOctet(MsgBits(0, m.body))| / 8, start)
    ensures At(s, start, MsgBits(start, m.body)) && Coherent(start, m.body)
    ensures start % 8 == 0 || NothingAligned(m.body)
  {
    hide At, LengthEnc, DecLength, Zeros, PadLen, MsgBits;
    var body := MsgBits(0, m.body);
    var n := |PadToOctet(body)| / 8;
    LengthOk(pos, n, m.align);
    AtSplit(s, pos, LengthEnc(pos, n, m.align).bits, PadToOctet(body));
    LengthRoundTrip(s, pos, n, m.align);
    start := pos + |LengthEnc(pos, n, m.align).bits|;
    AtSplit(s, start, body, Zeros(PadLen(|body|)));
    PhaseOnly(start, 0, m.body);
    CoherentPhase(0, start, m.body);
  }

  /** The closing guard ends where the field does. */
  lemma {:induction false} LeaveField(s: seq<bool>, pos: nat, start: nat, m: Msg, sch: Schema)
    requires sch.Enter? && Matches(m, sch) && Closes(m, sch)
    requires |PadToOctet(MsgBits(0, m.body))| < 8 * 16384
    requires start == pos + |LengthEnc(pos, |PadToOctet(MsgBits(0, m.body))| / 8, m.align).bits|
    requires start % 8 == 0 || NothingAligned(m.body)
    requires At(s, pos, FieldBits(pos, m.align, MsgBits(0, m.body)))
    ensures var p := start + Consumed(start, m.body, sch.body);
            var n := |PadToOctet(MsgBits(0, m.body))| / 8;
            && start <= p <= |s|
            && CloseAt(s, start, n, p) == pos + |FieldBits(pos, m.align, MsgBits(0, m.body))|
  {
    hide At, LengthEnc, Zeros, PadLen, MsgBits, CloseAt;
    var n := |PadToOctet(MsgBits(0, m.body))| / 8;
    AtIs(s, pos, FieldBits(pos, m.align, MsgBits(0, m.body)));
    ConsumedPhase(start, 0, m.body, sch.body);
    ConsumedWithin(0, m.body, sch.body);
    ClosesExactly(s, start, n, start + Consumed(start, m.body, sch.body));
  }
}
