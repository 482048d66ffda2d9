/** Extension groups: presence flags behind a normally small count, one open type field
    per group present, and a reader that skips the groups it does not know. */
module ExtGroups {
  import opened BitSeq
  import opened BitRefs
  import opened CBitRefs
  import opened Wire
  import opened PerFormat
  import PerWire
  import opened PerCodec
  import opened OpenFields
  import opened OpenFieldGuards

  // ----- presence flags on the wire -----

  /** The flags up to the last group present. */
  function UpToLastSet(groups: seq<bool>): (g: seq<bool>)
    ensures g <= groups && (g != [] ==> g[|g| - 1])
    ensures forall i | |g| <= i < |groups| :: !groups[i]
  {
    if groups == [] then []
    else if groups[|groups| - 1] then groups
    else
      var g := UpToLastSet(groups[..|groups| - 1]);
      assert g <= groups;
      g
  }

  /** The number of groups less one, in 32 bits: no group at all wraps around. */
  function CountField(n: nat): nat { UINT32.Wrap(n - 1) }

  function FlagsEnc(groups: seq<bool>): (e: Enc)
    ensures e.Valid()
  {
    var g := UpToLastSet(groups);
    SmallEnc(CountField(|g|)).Then(Checked(g))
  }

  function Padded(g: seq<bool>, n: nat): (r: seq<bool>)
    ensures |r| == Max(|g|, n) && g <= r
    ensures forall i | |g| <= i < |r| :: !r[i]
  {
    if |g| >= n then g else g + Zeros(n - |g|)
  }

  /** count groups were announced; the reader keeps flags for at least k. */
  datatype Flags = Flags(count: nat, flags: seq<bool>)

  function DecFlags(s: seq<bool>, pos: nat, k: nat): (d: Dec<Flags>)
    ensures d.Got? ==> pos <= d.pos <= |s| && |d.val.flags| == Max(d.val.count, k)
  {
    var d := DecSmall(s, pos, 32);
    if d.Bad? || d.pos + d.val + 1 > |s| then Bad
    else Got(Flags(d.val + 1, Padded(s[d.pos..d.pos + d.val + 1], k)), d.pos + d.val + 1)
  }

  /** n is the number of groups up to the last one present: seven bits of it less one, then the
      n flags; no group at all counts as too many, which leaves one bit and a refusal. */
  lemma {:induction false} FlagsOnWire(groups: seq<bool>, n: nat)
    requires n <= |groups| <= 0xFFFF_FFFF && (n > 0 ==> groups[n - 1]) && forall i | n <= i < |groups| :: !groups[i]
    ensures FlagsEnc(groups) == if 1 <= n <= 64 then Enc([false] + ToBits(n - 1, 6) + groups[..n], 7 + n, true)
                                else Enc([true], 1, false)
  {
    hide ToBits, SmallEnc, UpToLastSet;
    LastSetIs(groups, n);
    CountFieldIs(n);
    PerWire.SmallOnWire(CountField(n));
  }

  lemma {:induction false} LastSetIs(groups: seq<bool>, n: nat)
    requires n <= |groups| && (n > 0 ==> groups[n - 1]) && forall i | n <= i < |groups| :: !groups[i]
    ensures UpToLastSet(groups) == groups[..n]
  {
    hide UpToLastSet;
    var g := UpToLastSet(groups);
    assert g != [] ==> groups[|g| - 1];
    assert |g| == n;
  }

  lemma {:induction false} CountFieldIs(n: nat)
    requires n <= 0xFFFF_FFFF
    ensures CountField(n) == if n == 0 then 0xFFFF_FFFF else n - 1
  {
  }

  /** What is read from any stream: a count of at most 64 and as many flags, with the groups the
      reader knows beyond them absent. */
  lemma {:induction false} FlagsDecoded(s: seq<bool>, pos: nat, k: nat)
    ensures var d := DecFlags(s, pos, k);
            if pos + 7 > |s| || s[pos] || pos + 8 + FromBits(s[pos + 1..pos + 7]) > |s| then d.Bad?
            else
              var n := FromBits(s[pos + 1..pos + 7]) + 1;
              && d.Got? && d.val.count == n && d.pos == pos + 7 + n
              && |d.val.flags| == Max(n, k) && d.val.flags[..n] == s[pos + 7..pos + 7 + n]
              && forall i | n <= i < |d.val.flags| :: !d.val.flags[i]
  {
    hide FromBits, DecSmall;
    PerWire.SmallDecoded(s, pos, 32);
  }

  /** Flags are encoded exactly when the last group present has an index of at most 63,
      and then every reader sees the same groups, whatever number it supports. */
  lemma {:induction false} FlagsRoundTrip(s: seq<bool>, pos: nat, groups: seq<bool>, k: nat)
    requires |groups| < 0xFFFF_FFFF
    requires FlagsEnc(groups).ok ==> At(s, pos, FlagsEnc(groups).bits)
    ensures FlagsEnc(groups).ok <==> 1 <= |UpToLastSet(groups)| <= 64
    ensures FlagsEnc(groups).ok ==>
              var g := UpToLastSet(groups);
              DecFlags(s, pos, k) == Got(Flags(|g|, Padded(g, k)), pos + |FlagsEnc(groups).bits|)
  {
    hide At, UpToLastSet, Padded, DecSmall;
    var g := UpToLastSet(groups);
    CountFieldSmall(|g|);
    if 1 <= |g| <= 64 {
      AtSplit(s, pos, SmallEnc(|g| - 1).bits, g);
      SmallRoundTrip(s, pos, |g| - 1, 32);
      SmallSize(|g| - 1);
      AtIs(s, pos + 7, g);
    }
  }

  lemma {:induction false} CountFieldSmall(n: nat)
    requires n < 0xFFFF_FFFF
    ensures SmallEnc(CountField(n)).ok <==> 1 <= n <= 64
    ensures n >= 1 ==> CountField(n) == n - 1
  {
  }

  // ----- the groups themselves -----

  /** One field per group present, from group i on. */
  function GroupFields(flags: seq<bool>, bodies: seq<Msg>, i: nat): Msg
    requires |flags| == |bodies| && i <= |flags|
    decreases |flags| - i
  {
    if i == |flags| then End
    else if flags[i] then Open(false, bodies[i], GroupFields(flags, bodies, i + 1))
    else GroupFields(flags, bodies, i + 1)
  }

  /** What a reader of |schemas| groups asks for, given the flags it read. */
  function Known(flags: seq<bool>, schemas: seq<Schema>, i: nat): Schema
    requires |schemas| <= |flags| && i <= |schemas|
    decreases |schemas| - i
  {
    if i == |schemas| then Stop
    else if flags[i] then Enter(false, schemas[i], Known(flags, schemas, i + 1))
    else Known(flags, schemas, i + 1)
  }

  /** Where a reader stands that opens a field and closes it again. */
  function SkipField(s: seq<bool>, pos: nat): (q: nat)
    requires pos <= |s|
    ensures pos <= q <= |s|
  {
    var o := OpenAt(s, pos, false);
    CloseAt(s, o.pos, o.len, o.pos)
  }

  /** The destructor's walk over the groups from i to n. */
  function SkipGroups(s: seq<bool>, pos: nat, flags: seq<bool>, i: nat, n: nat): (q: nat)
    requires pos <= |s| && n <= |flags|
    ensures pos <= q <= |s|
    decreases n - i
  {
    if i >= n then pos
    else SkipGroups(s, if flags[i] then SkipField(s, pos) else pos, flags, i + 1, n)
  }

  /** What reading the header leaves in the guard, and where: the announced count, the flags,
      and whether all of it could be read. */
  datatype Header = Header(count: nat, flags: seq<bool>, pos: nat, ok: bool)

  /** A count that cannot be read leaves no flag set, but what there was of it in the guard,
      neither raised by one nor made room for; flags that run out are absent. */
  function DecHeader(s: seq<bool>, pos: nat, k: nat): (h: Header)
    requires pos <= |s|
    ensures pos <= h.pos <= |s|
  {
    var d := DecFlags(s, pos, k);
    if d.Got? then Header(d.val.count, d.val.flags, d.pos, true)
    else if pos == |s| then Header(0, Zeros(k), pos, false)
    else if s[pos] then Header(0, Zeros(k), pos + 1, false)
    else if |s| < pos + 7 then Header(CutShort(s, pos + 1, 6), Zeros(k), |s|, false)
    else
      var count := FromBits(s[pos + 1..pos + 7]) + 1;
      Header(count, Padded(s[pos + 7..], Max(count, k)), |s|, false)
  }

  /** The count stays within the flags exactly when it was not cut short above the number of
      groups supported. */
  lemma {:induction false} CountWithinFlags(s: seq<bool>, pos: nat, k: nat)
    requires pos <= |s|
    ensures var h := DecHeader(s, pos, k);
            h.count <= |h.flags| <==> !(pos < |s| < pos + 7 && !s[pos] && CutShort(s, pos + 1, 6) > k)
    ensures var h := DecHeader(s, pos, k); h.count > |h.flags| ==> h.pos == |s|
  {
    hide FromBits, Shl;
    if pos < |s| < pos + 7 || (pos < |s| && s[pos]) {
      HeaderRefused(s, pos, k);
    }
  }

  lemma {:induction false} HeaderRefused(s: seq<bool>, pos: nat, k: nat)
    requires pos < |s| < pos + 7 || (pos < |s| && s[pos])
    ensures DecFlags(s, pos, k).Bad?
  {
    hide FromBits;
    BitValue(s, pos);
  }

  /** Such a header: four bits are left of the stream, a clear one and three set ones.  The
      count becomes 56, with one flag to look it up in. */
  lemma {:induction false} CountCutShort(s: seq<bool>)
    requires |s| == 8 && s[4..] == [false, true, true, true]
    ensures DecHeader(s, 4, 1) == Header(56, [false], 8, false)
  {
    hide FromBits, Shl, DecFlags;
    HeaderRefused(s, 4, 1);
    assert s[4..][0] == s[4] && s[5..] == s[4..][1..] == [true, true, true];
    ThreeOnes();
    assert Zeros(1) == [false];
  }

  lemma {:induction false} ThreeOnes()
    ensures Shl(FromBits([true, true, true]), 3) == 56
  {
    var one, two, three := [true], [true, true], [true, true, true];
    assert one[..0] == [] && two[..1] == one && three[..2] == two;
    assert FromBits([]) == 0 && FromBits(one) == 1 && FromBits(two) == 3 && FromBits(three) == 7;
    assert Shl(7, 0) == 7 && Shl(7, 1) == 14 && Shl(7, 2) == 28;
  }

  /** The flags and numbers a reader gets, whether it got to its end, and where it stands. */
  datatype GroupsRead = GroupsRead(flags: seq<bool>, vals: seq<nat>, ok: bool, pos: nat)

  /** A header that cannot be read goes unnoticed, and the unknown groups are skipped however
      the known ones went.  A count beyond the flags is met at the end of the stream, where
      there is nothing to skip. */
  function DecGroups(s: seq<bool>, pos: nat, schemas: seq<Schema>): (g: GroupsRead)
    requires pos <= |s|
    ensures pos <= g.pos <= |s|
  {
    var h := DecHeader(s, pos, |schemas|);
    var d := DecMsg(s, h.pos, Known(h.flags, schemas, 0));
    var end := if h.count <= |h.flags| then SkipGroups(s, d.pos, h.flags, |schemas|, h.count) else |s|;
    GroupsRead(h.flags, d.vals, d.ok, end)
  }

  // ----- forward compatibility -----

  /** The numbers of the known groups that are present. */
  function KnownNumbers(flags: seq<bool>, bodies: seq<Msg>, schemas: seq<Schema>, i: nat): seq<nat>
    requires |flags| == |bodies|
    requires forall j | i <= j < |flags| && j < |schemas| && flags[j] :: Matches(bodies[j], schemas[j])
    decreases |flags| - i
  {
    if i >= |flags| || i >= |schemas| then []
    else (if flags[i] then Asked(bodies[i], schemas[i]) else []) + KnownNumbers(flags, bodies, schemas, i + 1)
  }

  /** A group reader follows the message: known groups by their schemas, with at most
      32 bits left unread, and unknown ones no larger than 4 octets. */
  predicate Followed(flags: seq<bool>, bodies: seq<Msg>, schemas: seq<Schema>)
    requires |flags| == |bodies|
  {
    && (forall j | 0 <= j < |flags| && j < |schemas| && flags[j] ::
          Matches(bodies[j], schemas[j]) && Closes(Open(false, bodies[j], End), Enter(false, schemas[j], Stop)))
    && (forall j | |schemas| <= j < |flags| && flags[j] :: |PadToOctet(MsgBits(0, bodies[j]))| <= 32)
  }

  lemma {:induction false} KnownStops(flags: seq<bool>, schemas: seq<Schema>, i: nat)
    requires |schemas| <= |flags| && i <= |schemas|
    requires forall j | i <= j < |flags| :: !flags[j]
    ensures Known(flags, schemas, i) == Stop
    decreases |schemas| - i
  {
    if i < |schemas| {
      KnownStops(flags, schemas, i + 1);
    }
  }

  /** The known groups are a schema for the fields, and what they leave is the fields
      of the unknown groups. */
  lemma {:induction false} KnownFollows(flags: seq<bool>, bodies: seq<Msg>, schemas: seq<Schema>, i: nat)
    requires |flags| == |bodies| && Followed(flags, bodies, schemas) && i <= |flags| && i <= |schemas|
    requires NothingAligned(GroupFields(flags, bodies, i))
    ensures var m, sch := GroupFields(flags, bodies, i), Known(Padded(flags, |schemas|), schemas, i);
            var tail := MsgBits(0, GroupFields(flags, bodies, Min(|flags|, |schemas|)));
            && Matches(m, sch) && Closes(m, sch)
            && Asked(m, sch) == KnownNumbers(flags, bodies, schemas, i)
            && Consumed(0, m, sch) + |tail| == |MsgBits(0, m)|
            && MsgBits(0, m)[Consumed(0, m, sch)..] == tail
    decreases |flags| - i
  {
    hide FieldBits, PadToOctet, Asked, Padded;
    if i == |flags| || i == |schemas| {
      NoneKnown(flags, bodies, schemas, i);
    } else {
      KnownFollows(flags, bodies, schemas, i + 1);
      if flags[i] {
        KnownPresent(flags, bodies, schemas, i);
      }
    }
  }

  lemma {:induction false} NoneKnown(flags: seq<bool>, bodies: seq<Msg>, schemas: seq<Schema>, i: nat)
    requires |flags| == |bodies| && Followed(flags, bodies, schemas)
    requires i <= |flags| && i <= |schemas| && (i == |flags| || i == |schemas|)
    ensures var m, sch := GroupFields(flags, bodies, i), Known(Padded(flags, |schemas|), schemas, i);
            && i == Min(|flags|, |schemas|) && sch == Stop
            && Matches(m, sch) && Closes(m, sch) && Consumed(0, m, sch) == 0
            && Asked(m, sch) == KnownNumbers(flags, bodies, schemas, i) == []
  {
    hide MsgBits, GroupFields;
    if i == |flags| {
      KnownStops(Padded(flags, |schemas|), schemas, i);
    }
  }

  lemma {:induction false} KnownPresent(flags: seq<bool>, bodies: seq<Msg>, schemas: seq<Schema>, i: nat)
    requires |flags| == |bodies| && Followed(flags, bodies, schemas) && i < |flags| && i < |schemas| && flags[i]
    requires NothingAligned(GroupFields(flags, bodies, i + 1))
    requires var m, sch := GroupFields(flags, bodies, i + 1), Known(Padded(flags, |schemas|), schemas, i + 1);
             var tail := MsgBits(0, GroupFields(flags, bodies, Min(|flags|, |schemas|)));
             && Matches(m, sch) && Closes(m, sch)
             && Asked(m, sch) == KnownNumbers(flags, bodies, schemas, i + 1)
             && Consumed(0, m, sch) + |tail| == |MsgBits(0, m)|
             && MsgBits(0, m)[Consumed(0, m, sch)..] == tail
    ensures var m, sch := GroupFields(flags, bodies, i), Known(Padded(flags, |schemas|), schemas, i);
            var tail := MsgBits(0, GroupFields(flags, bodies, Min(|flags|, |schemas|)));
            && Matches(m, sch) && Closes(m, sch)
            && Asked(m, sch) == KnownNumbers(flags, bodies, schemas, i)
            && Consumed(0, m, sch) + |tail| == |MsgBits(0, m)|
            && MsgBits(0, m)[Consumed(0, m, sch)..] == tail
  {
    hide FieldBits, PadToOctet, SamePhase;
    var rest, more := GroupFields(flags, bodies, i + 1), Known(Padded(flags, |schemas|), schemas, i + 1);
    var f := FieldBits(0, false, MsgBits(0, bodies[i]));
    PhaseOnly(|f|, 0, rest);
    ConsumedPhase(|f|, 0, rest, more);
    var c := Consumed(0, rest, more);
    assert (f + MsgBits(0, rest))[|f| + c..] == MsgBits(0, rest)[c..];
  }

  /** The destructor's walk over unknown groups of at most 4 octets each ends behind
      the last of them. */
  lemma {:induction false} UnknownSkipped(s: seq<bool>, pos: nat, flags: seq<bool>, bodies: seq<Msg>, all: seq<bool>, i: nat, block: nat)
    requires |flags| == |bodies| && i <= |flags| && flags <= all && pos <= |s|
    requires Fits(GroupFields(flags, bodies, i), block) && NothingAligned(GroupFields(flags, bodies, i))
    requires forall j | i <= j < |flags| && flags[j] :: |PadToOctet(MsgBits(0, bodies[j]))| <= 32
    requires At(s, pos, MsgBits(0, GroupFields(flags, bodies, i)))
    ensures SkipGroups(s, pos, all, i, |flags|) == pos + |MsgBits(0, GroupFields(flags, bodies, i))|
    decreases |flags| - i
  {
    hide At, SkipField, FieldBits, PadToOctet, MsgBits, SamePhase;
    if i == |flags| {
      NoFields();
    } else if !flags[i] {
      UnknownSkipped(s, pos, flags, bodies, all, i + 1, block);
    } else {
      var body, rest := bodies[i], GroupFields(flags, bodies, i + 1);
      OneUnknown(s, pos, body, rest, block);
      UnknownSkipped(s, pos + |FieldBits(0, false, MsgBits(0, body))|, flags, bodies, all, i + 1, block);
    }
  }

  lemma {:induction false} NoFields()
    ensures MsgBits(0, End) == []
  {
  }

  lemma {:induction false} OneUnknown(s: seq<bool>, pos: nat, body: Msg, rest: Msg, block: nat)
    requires pos <= |s| && Fits(Open(false, body, rest), block) && NothingAligned(Open(false, body, rest))
    requires |PadToOctet(MsgBits(0, body))| <= 32
    requires At(s, pos, MsgBits(0, Open(false, body, rest)))
    ensures var f := FieldBits(0, false, MsgBits(0, body));
            && pos + |f| <= |s| && At(s, pos + |f|, MsgBits(0, rest))
            && |MsgBits(0, Open(false, body, rest))| == |f| + |MsgBits(0, rest)|
    ensures SkipField(s, pos) == pos + |FieldBits(0, false, MsgBits(0, body))|
  {
    hide At, SkipField, SamePhase, LengthEnc;
    var f := FieldBits(0, false, MsgBits(0, body));
    OpenIs(body, rest);
    AtSplit(s, pos, f, MsgBits(0, rest));
    AtIs(s, pos, f);
    UnknownField(s, pos, MsgBits(0, body));
  }

  lemma {:induction false} OpenIs(body: Msg, rest: Msg)
    requires NothingAligned(rest)
    ensures MsgBits(0, Open(false, body, rest)) == FieldBits(0, false, MsgBits(0, body)) + MsgBits(0, rest)
  {
    hide FieldBits, SamePhase;
    PhaseOnly(|FieldBits(0, false, MsgBits(0, body))|, 0, rest);
  }

  /** Skipping one field without reading any of it. */
  lemma {:induction false} UnknownField(s: seq<bool>, pos: nat, body: seq<bool>)
    requires |PadToOctet(body)| < 8 * 16384 && At(s, pos, FieldBits(0, false, body))
    ensures pos + |FieldBits(0, false, body)| <= |s|
    ensures SkipField(s, pos) == pos + |FieldBits(0, false, body)| <==> |PadToOctet(body)| <= 32
  {
    hide At, DecLength, CloseAt, LengthEnc, SamePhase;
    var n := |PadToOctet(body)| / 8;
    LengthOk(pos, n, false);
    LengthPhase(0, pos, n, false);
    AtIs(s, pos, FieldBits(0, false, body));
    AtSplit(s, pos, LengthEnc(pos, n, false).bits, PadToOctet(body));
    LengthRoundTrip(s, pos, n, false);
    var start := pos + |LengthEnc(pos, n, false).bits|;
    ClosesExactly(s, start, n, start);
  }

  /** With one unknown group i in the message, the destructor of a reader of k groups ends
      where a reader that knows the group would, exactly when its body is at most 4 octets. */
  lemma {:induction false} OneUnknownGroupExactly(s: seq<bool>, pos: nat, flags: seq<bool>, body: seq<bool>, k: nat, i: nat)
    requires k <= i < |flags| && (forall j | k <= j < |flags| :: flags[j] == (j == i)) && pos <= |s|
    requires |PadToOctet(body)| < 8 * 16384 && At(s, pos, FieldBits(0, false, body))
    ensures SkipGroups(s, pos, flags, k, |flags|) == pos + |FieldBits(0, false, body)| <==> |PadToOctet(body)| <= 32
    decreases i - k
  {
    hide At, SkipField, FieldBits, PadToOctet;
    if k < i {
      OneUnknownGroupExactly(s, pos, flags, body, k + 1, i);
    } else {
      UnknownField(s, pos, body);
      NothingPresent(s, SkipField(s, pos), flags, k + 1);
    }
  }

  /** At the end of the stream there is nothing to skip, whatever the flags. */
  lemma {:induction false} SkipAtEnd(s: seq<bool>, flags: seq<bool>, i: nat, n: nat)
    requires n <= |flags|
    ensures SkipGroups(s, |s|, flags, i, n) == |s|
  {
    hide SkipGroups, SkipField;
  }

  lemma {:induction false} NothingPresent(s: seq<bool>, pos: nat, flags: seq<bool>, i: nat)
    requires i <= |flags| && pos <= |s| && forall j | i <= j < |flags| :: !flags[j]
    ensures SkipGroups(s, pos, flags, i, |flags|) == pos
    decreases |flags| - i
  {
    if i < |flags| {
      NothingPresent(s, pos, flags, i + 1);
    }
  }

  /** A reader of any number of groups sees the presence flags of a message with any
      other number of groups, reads the groups it knows, and ends where the message
      does: where a reader that knows every group ends. */
  lemma {:induction false} ForwardCompatible(s: seq<bool>, pos: nat, groups: seq<bool>, bodies: seq<Msg>, schemas: seq<Schema>, block: nat)
    requires |groups| < 0xFFFF_FFFF && FlagsEnc(groups).ok && |bodies| == |UpToLastSet(groups)|
    requires var g := UpToLastSet(groups);
             && Followed(g, bodies, schemas)
             && Fits(GroupFields(g, bodies, 0), block) && NothingAligned(GroupFields(g, bodies, 0))
             && At(s, pos, FlagsEnc(groups).bits + MsgBits(0, GroupFields(g, bodies, 0)))
    ensures var g := UpToLastSet(groups);
            var end := pos + |FlagsEnc(groups).bits| + |MsgBits(0, GroupFields(g, bodies, 0))|;
            pos <= |s| && DecGroups(s, pos, schemas)
                          == GroupsRead(Padded(g, |schemas|), KnownNumbers(g, bodies, schemas, 0), true, end)
  {
    hide At, FlagsEnc, UpToLastSet, DecFlags, DecMsg, CutShort, FromBits, SkipGroups, MsgBits, Padded, Matches, Closes, Fits, KnownNumbers,
         Known, GroupFields, Followed, Consumed, Asked, SamePhase, Coherent;
    var g, k := UpToLastSet(groups), |schemas|;
    var m, sch := GroupFields(g, bodies, 0), Known(Padded(g, k), schemas, 0);
    AtSplit(s, pos, FlagsEnc(groups).bits, MsgBits(0, m));
    AtIs(s, pos, FlagsEnc(groups).bits);
    FlagsRoundTrip(s, pos, groups, k);
    var p := pos + |FlagsEnc(groups).bits|;
    KnownFollows(g, bodies, schemas, 0);
    KnownRead(s, p, m, sch, block);
    ConsumedWithin(0, m, sch);
    AtIs(s, p, MsgBits(0, m));
    var q, c := p + Consumed(0, m, sch), Min(|g|, k);
    AtTail(s, p, MsgBits(0, m), Consumed(0, m, sch));
    if k < |g| {
      TailFits(g, bodies, 0, k, block);
      FollowedUnknown(g, bodies, schemas);
      UnknownSkipped(s, q, g, bodies, Padded(g, k), k, block);
    } else {
      NothingToSkip(s, q, Padded(g, k), g, k, bodies);
    }
  }

  lemma {:induction false} KnownRead(s: seq<bool>, p: nat, m: Msg, sch: Schema, block: nat)
    requires Matches(m, sch) && Closes(m, sch) && Fits(m, block) && NothingAligned(m) && p <= |s|
    requires At(s, p, MsgBits(0, m))
    ensures DecMsg(s, p, sch) == Reading(Asked(m, sch), p + Consumed(0, m, sch), true)
  {
    hide At, DecMsg, MsgBits, Matches, Closes, Fits, Consumed, Asked, SamePhase, Coherent;
    PhaseOnly(p, 0, m);
    ConsumedPhase(p, 0, m, sch);
    OneVariantIsCoherent(p, m, block);
    MessageRoundTrip(s, p, m, sch, block);
  }

  lemma {:induction false} AtTail(s: seq<bool>, p: nat, x: seq<bool>, c: nat)
    requires At(s, p, x) && c <= |x|
    ensures At(s, p + c, x[c..])
  {
    assert x == x[..c] + x[c..];
    AtSplit(s, p, x[..c], x[c..]);
  }

  lemma {:induction false} TailFits(flags: seq<bool>, bodies: seq<Msg>, i: nat, k: nat, block: nat)
    requires |flags| == |bodies| && i <= k <= |flags|
    requires Fits(GroupFields(flags, bodies, i), block) && NothingAligned(GroupFields(flags, bodies, i))
    ensures Fits(GroupFields(flags, bodies, k), block) && NothingAligned(GroupFields(flags, bodies, k))
    decreases k - i
  {
    hide PadToOctet, MsgBits;
    if i < k {
      TailFits(flags, bodies, i + 1, k, block);
    }
  }

  lemma {:induction false} FollowedUnknown(flags: seq<bool>, bodies: seq<Msg>, schemas: seq<Schema>)
    requires |flags| == |bodies| && Followed(flags, bodies, schemas)
    ensures forall j | |schemas| <= j < |flags| && flags[j] :: |PadToOctet(MsgBits(0, bodies[j]))| <= 32
  {
    hide PadToOctet, MsgBits, Matches, Closes;
  }

  lemma {:induction false} NothingToSkip(s: seq<bool>, pos: nat, all: seq<bool>, g: seq<bool>, k: nat, bodies: seq<Msg>)
    requires |g| <= k && g <= all && pos <= |s| && |bodies| == |g|
    ensures SkipGroups(s, pos, all, k, |g|) == pos
    ensures MsgBits(0, GroupFields(g, bodies, |g|)) == []
  {
  }
}
