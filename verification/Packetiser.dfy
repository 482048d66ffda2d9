/** The receiving thread that cuts a stream of datagrams into transport blocks inside one
    reused buffer. */
module Packetiser {
  import opened BitSeq

  // ----- cutting a byte stream -----

  datatype Pieces = Pieces(packets: seq<seq<byte>>, kept: seq<byte>)

  /** As many packets of n bytes as there are, and what is left over. */
  function Cut(all: seq<byte>, n: nat): Pieces
    requires n > 0
    decreases |all|
  {
    if |all| < n then Pieces([], all)
    else
      var rest := Cut(all[n..], n);
      Pieces([all[..n]] + rest.packets, rest.kept)
  }

  function Flatten(packets: seq<seq<byte>>): seq<byte> {
    if packets == [] then [] else packets[0] + Flatten(packets[1..])
  }

  ghost predicate AllOfSize(packets: seq<seq<byte>>, n: nat) {
    forall p :: p in packets ==> |p| == n
  }

  lemma CutStep(all: seq<byte>, n: nat)
    requires 0 < n <= |all|
    ensures Cut(all, n) == Pieces([all[..n]] + Cut(all[n..], n).packets, Cut(all[n..], n).kept)
  {
  }

  lemma CutShort(all: seq<byte>, n: nat)
    requires |all| < n
    ensures Cut(all, n) == Pieces([], all)
  {
  }

  lemma {:induction false} FlattenAppend(a: seq<seq<byte>>, b: seq<seq<byte>>)
    ensures Flatten(a + b) == Flatten(a) + Flatten(b)
    decreases |a|
  {
    if a == [] {
      assert a + b == b;
    } else {
      assert (a + b)[1..] == a[1..] + b;
      FlattenAppend(a[1..], b);
    }
  }

  lemma NoPackets()
    ensures Flatten([]) == []
  {
  }

  lemma FlattenFirst(first: seq<byte>, rest: seq<seq<byte>>)
    ensures Flatten([first] + rest) == first + Flatten(rest)
  {
    assert ([first] + rest)[1..] == rest;
  }

  /** Cutting loses nothing, and leaves less than a packet. */
  lemma {:induction false} CutKeepsAll(all: seq<byte>, n: nat)
    requires n > 0
    ensures Flatten(Cut(all, n).packets) + Cut(all, n).kept == all
    ensures AllOfSize(Cut(all, n).packets, n) && |Cut(all, n).kept| < n
    decreases |all|
  {
    hide Flatten, Cut;
    if |all| < n {
      NoPackets();
      CutShort(all, n);
      assert [] + all == all;
    } else {
      CutKeepsAll(all[n..], n);
      var rest := Cut(all[n..], n);
      CutStep(all, n);
      FlattenFirst(all[..n], rest.packets);
      assert all[..n] + Flatten(rest.packets) + rest.kept == all[..n] + (Flatten(rest.packets) + rest.kept);
      assert all[..n] + all[n..] == all;
    }
  }

  /** And there is no other way to cut into packets of n bytes with less than n left. */
  lemma {:induction false} CutIsUnique(p: Pieces, n: nat)
    requires n > 0 && AllOfSize(p.packets, n) && |p.kept| < n
    ensures Cut(Flatten(p.packets) + p.kept, n) == p
    decreases |p.packets|
  {
    var all := Flatten(p.packets) + p.kept;
    if p.packets == [] {
      assert all == p.kept;
    } else {
      var first, rest := p.packets[0], Pieces(p.packets[1..], p.kept);
      assert |first| == n;
      assert all == first + (Flatten(rest.packets) + p.kept);
      assert all[..n] == first && all[n..] == Flatten(rest.packets) + p.kept;
      CutIsUnique(rest, n);
      assert p.packets == [first] + rest.packets;
    }
  }

  /** Cutting what has come so far and going on with the rest cuts the whole. */
  lemma {:induction false} CutAppend(a: seq<byte>, b: seq<byte>, n: nat)
    requires n > 0
    ensures var first := Cut(a, n); var next := Cut(first.kept + b, n);
      Cut(a + b, n) == Pieces(first.packets + next.packets, next.kept)
    decreases |a|
  {
    if |a| < n {
      assert [] + Cut(a + b, n).packets == Cut(a + b, n).packets;
    } else {
      assert (a + b)[..n] == a[..n] && (a + b)[n..] == a[n..] + b;
      CutAppend(a[n..], b, n);
      var tail := Cut(a[n..], n);
      var next := Cut(tail.kept + b, n);
      assert [a[..n]] + (tail.packets + next.packets) == [a[..n]] + tail.packets + next.packets;
    }
  }

  /** Taking the first packet off what is still to be cut. */
  lemma CutFirst(all: seq<byte>, from: nat, packet: seq<byte>, buffer: seq<byte>, before: seq<seq<byte>>)
    requires packet != [] && from + |packet| <= |all| && buffer == all && packet == buffer[from..from + |packet|]
    ensures var rest := Cut(all[from + |packet|..], |packet|);
      Cut(all[from..], |packet|).kept == rest.kept
      && before + Cut(all[from..], |packet|).packets == before + [packet] + rest.packets
  {
    hide Cut;
    var n := |packet|;
    CutStep(all[from..], n);
    assert all[from..][..n] == packet && all[from..][n..] == all[from + n..];
    assert before + ([packet] + Cut(all[from + n..], n).packets) == before + [packet] + Cut(all[from + n..], n).packets;
  }

  // ----- one round -----

  /** Division as C divides: towards zero. */
  function TruncDiv(a: int, b: nat): int
    requires b > 0
  {
    if a >= 0 then a / b else -(-a / b)
  }

  /** Bytes of a transport block of the given number of bits; a block of no bits still
      takes one byte. */
  function PacketSize(tbs: nat): int { 1 + TruncDiv(tbs - 1, 8) }

  lemma PacketSizeHoldsBlock(tbs: nat)
    ensures PacketSize(tbs) >= 1
    ensures tbs > 0 ==> 8 * (PacketSize(tbs) - 1) < tbs <= 8 * PacketSize(tbs)
    ensures tbs == 0 ==> PacketSize(tbs) == 1
  {
  }

  /** A read: a datagram, with the block size in force when it arrives, where an empty one
      stands for a read that times out too; or a failure, which ends the program. */
  datatype Read = Datagram(bytes: seq<byte>, tbs: nat) | Broken

  /** What the thread has done: the packets handed over, the bytes kept for the next one,
      the bytes read since the last empty read, and how many packets there were then. */
  datatype Line = Line(packets: seq<seq<byte>>, kept: seq<byte>, got: seq<byte>, mark: nat)

  const FRESH := Line([], [], [], 0)

  /** A datagram is cut to the room left in the buffer. */
  function Taken(kept: nat, room: nat, bytes: seq<byte>): seq<byte> {
    if kept > room then [] else bytes[..Min(|bytes|, room - kept)]
  }

  function Round(l: Line, room: nat, bytes: seq<byte>, tbs: nat): Line {
    PacketSizeHoldsBlock(tbs);
    var chunk := Taken(|l.kept|, room, bytes);
    if chunk == [] then Line(l.packets, [], [], |l.packets|)
    else
      var p := Cut(l.kept + chunk, PacketSize(tbs));
      Line(l.packets + p.packets, p.kept, l.got + chunk, l.mark)
  }

  function Rounds(l: Line, room: nat, inputs: seq<Read>): Line
    decreases |inputs|
  {
    if inputs == [] || inputs[0].Broken? then l
    else Rounds(Round(l, room, inputs[0].bytes, inputs[0].tbs), room, inputs[1..])
  }

  // ----- the thread -----

  /** Copies between regions that must not overlap. */
  method MemCpy(dst: array<byte>, d: nat, src: array<byte>, s: nat, n: nat)
    requires d + n <= dst.Length && s + n <= src.Length
    requires dst != src || d + n <= s || s + n <= d
    modifies dst
    ensures dst[..] == old(dst[..d]) + old(src[s..s + n]) + old(dst[d + n..])
  {
    ghost var from, to := src[..], dst[..];
    for i := 0 to n
      invariant forall k :: d <= k < d + i ==> dst[k] == from[s + k - d]
      invariant forall k :: 0 <= k < d || d + i <= k < dst.Length ==> dst[k] == to[k]
      invariant dst != src ==> src[..] == from
    {
      assert src[s + i] == from[s + i];
      dst[d + i] := src[s + i];
    }
    Overwritten(dst[..], to, from[s..s + n], d);
    assert old(src[s..s + n]) == from[s..s + n];
    assert old(dst[..d]) == to[..d] && old(dst[d + n..]) == to[d + n..];
  }

  lemma Overwritten(now: seq<byte>, was: seq<byte>, chunk: seq<byte>, at: nat)
    requires |now| == |was| && at + |chunk| <= |was|
    requires forall k :: at <= k < at + |chunk| ==> now[k] == chunk[k - at]
    requires forall k :: 0 <= k < at || at + |chunk| <= k < |was| ==> now[k] == was[k]
    ensures now == was[..at] + chunk + was[at + |chunk|..]
  {
  }

  class NetThread {
    const data2: array<byte>
    const slot: array<byte>
    var rpm: nat
    ghost var log: Line

    ghost predicate Valid()
      reads this, data2
    {
      data2 != slot && rpm <= data2.Length && log.kept == data2[..rpm]
    }

    constructor (buffer: array<byte>, slot: array<byte>)
      requires buffer != slot
      ensures Valid() && log == FRESH && data2 == buffer && this.slot == slot
    {
      data2, this.slot, rpm, log := buffer, slot, 0, FRESH;
    }

    /** Fills the buffer after the first rpm bytes. */
    method Fill(bytes: seq<byte>) returns (n: nat)
      requires rpm <= data2.Length
      modifies data2
      ensures n == |Taken(rpm, data2.Length, bytes)| && rpm + n <= data2.Length
      ensures data2[..rpm + n] == old(data2[..rpm]) + Taken(rpm, data2.Length, bytes)
      ensures n == Min(|bytes|, data2.Length - rpm) && data2[..rpm + n] == old(data2[..rpm]) + bytes[..n]
    {
      n := Min(|bytes|, data2.Length - rpm);
      for i := 0 to n
        invariant data2[..rpm + i] == old(data2[..rpm]) + bytes[..i]
      {
        data2[rpm + i] := bytes[i];
        assert bytes[..i + 1] == bytes[..i] + [bytes[i]];
        assert data2[..rpm + i + 1] == data2[..rpm + i] + [data2[rpm + i]];
      }
    }

    /** Hands over every whole packet and moves the rest to the front. */
    method HandOver(nbytes: nat)
      requires 0 < nbytes <= slot.Length && data2 != slot && rpm <= data2.Length
      modifies `rpm, data2, slot, `log
      ensures rpm < nbytes && rpm <= data2.Length
      ensures var p := Cut(old(data2[..rpm]), nbytes);
        log == old(log).(packets := old(log.packets) + p.packets) && data2[..rpm] == p.kept
    {
      hide Cut;
      var wpm := 0;
      ghost var all := data2[..rpm];
      while rpm >= nbytes
        invariant wpm + rpm == |all| <= data2.Length && data2[..|all|] == all
        invariant wpm > 0 ==> wpm >= nbytes
        invariant log == old(log).(packets := log.packets)
        invariant log.packets + Cut(all[wpm..], nbytes).packets == old(log.packets) + Cut(all, nbytes).packets
        invariant Cut(all[wpm..], nbytes).kept == Cut(all, nbytes).kept
      {
        MemCpy(slot, 0, data2, wpm, nbytes);
        ghost var packet, before := slot[..nbytes], log.packets;
        CutFirst(all, wpm, packet, data2[..|all|], before);
        log := log.(packets := before + [packet]);
        rpm := rpm - nbytes;
        wpm := wpm + nbytes;
      }
      if wpm > 0 {
        MemCpy(data2, 0, data2, wpm, rpm);
      }
      assert data2[..rpm] == all[wpm..];
      CutShort(all[wpm..], nbytes);
    }

    /** One turn of the loop. */
    method Receive(bytes: seq<byte>, tbs: nat)
      requires Valid() && PacketSize(tbs) <= slot.Length
      modifies this, data2, slot
      ensures Valid() && log == Round(old(log), data2.Length, bytes, tbs)
      ensures old(rpm) <= data2.Length && PacketSize(tbs) >= 1
      ensures var chunk := bytes[..Min(|bytes|, data2.Length - old(rpm))];
              if chunk == [] then rpm == 0 && log.packets == old(log.packets)
              else
                var p := Cut(old(data2[..rpm]) + chunk, PacketSize(tbs));
                log.packets == old(log.packets) + p.packets && data2[..rpm] == p.kept
    {
      hide Cut, PacketSize;
      PacketSizeHoldsBlock(tbs);
      var n := Fill(bytes);
      if n > 0 {
        PacketSizeHoldsBlock(tbs);
        var nbytes := PacketSize(tbs);
        rpm := rpm + n;
        log := log.(got := log.got + Taken(|log.kept|, data2.Length, bytes));
        HandOver(nbytes);
        log := log.(kept := data2[..rpm]);
      } else {
        rpm := 0;
        log := log.(kept := [], got := [], mark := |log.packets|);
      }
    }

    /** The loop, over any sequence of inputs. */
    method Serve(inputs: seq<Read>)
      requires Valid()
      requires forall r :: r in inputs && r.Datagram? ==> PacketSize(r.tbs) <= slot.Length
      modifies this, data2, slot
      ensures Valid() && log == Rounds(old(log), data2.Length, inputs)
    {
      for i := 0 to |inputs|
        invariant Valid() && Rounds(log, data2.Length, inputs[i..]) == Rounds(old(log), data2.Length, inputs)
      {
        assert inputs[i..][0] == inputs[i] && inputs[i..][1..] == inputs[i + 1..];
        if inputs[i].Broken? {
          return;
        }
        Receive(inputs[i].bytes, inputs[i].tbs);
      }
    }
  }

  // ----- whole runs -----

  /** The packets handed over since the last empty read, and then what is kept, are the
      bytes read since; and what is kept fits the buffer. */
  ghost predicate Conserved(l: Line, room: nat) {
    l.mark <= |l.packets| && Flatten(l.packets[l.mark..]) + l.kept == l.got && |l.kept| <= room
  }

  lemma RoundConserves(l: Line, room: nat, bytes: seq<byte>, tbs: nat)
    requires Conserved(l, room)
    ensures Conserved(Round(l, room, bytes, tbs), room)
    ensures |Round(l, room, bytes, tbs).kept| < PacketSize(tbs)
  {
    hide Cut, Flatten;
    PacketSizeHoldsBlock(tbs);
    var chunk := Taken(|l.kept|, room, bytes);
    var next := Round(l, room, bytes, tbs);
    if chunk == [] {
      assert l.packets[|l.packets|..] == [];
      NoPackets();
    } else {
      var p := Cut(l.kept + chunk, PacketSize(tbs));
      CutKeepsAll(l.kept + chunk, PacketSize(tbs));
      var since := l.packets[l.mark..];
      assert next.packets[l.mark..] == since + p.packets;
      FlattenAppend(since, p.packets);
      assert Flatten(since) + Flatten(p.packets) + p.kept == Flatten(since) + (l.kept + chunk);
      assert Flatten(since) + (l.kept + chunk) == l.got + chunk;
    }
  }

  /** Conservation, after any sequence of reads of any sizes. */
  lemma {:induction false} RunConserves(l: Line, room: nat, inputs: seq<Read>)
    requires Conserved(l, room)
    ensures Conserved(Rounds(l, room, inputs), room)
    decreases |inputs|
  {
    hide Conserved, Round;
    if inputs != [] && inputs[0].Datagram? {
      RoundConserves(l, room, inputs[0].bytes, inputs[0].tbs);
      RunConserves(Round(l, room, inputs[0].bytes, inputs[0].tbs), room, inputs[1..]);
    }
  }

  /** While packets are no larger than the buffer and no datagram is empty, the line never
      starts over, so everything read is in the packets or still kept. */
  lemma {:induction false} NeverStartsOver(l: Line, room: nat, inputs: seq<Read>)
    requires l.mark == 0 && Conserved(l, room) && |l.kept| < room
    requires forall r :: r in inputs && r.Datagram? ==> r.bytes != [] && PacketSize(r.tbs) <= room
    ensures var end := Rounds(l, room, inputs); Flatten(end.packets) + end.kept == end.got
    decreases |inputs|
  {
    hide Cut, Flatten;
    assert l.packets[0..] == l.packets;
    if inputs != [] && inputs[0].Datagram? {
      assert inputs[0] in inputs;
      RoundConserves(l, room, inputs[0].bytes, inputs[0].tbs);
      NeverStartsOver(Round(l, room, inputs[0].bytes, inputs[0].tbs), room, inputs[1..]);
    }
  }

  /** Everything the datagrams carry. */
  function Carried(inputs: seq<Read>): seq<byte> {
    if inputs == [] || inputs[0].Broken? then [] else inputs[0].bytes + Carried(inputs[1..])
  }

  /** No datagram is empty, and each leaves room for one packet, short of a byte. */
  predicate Roomy(inputs: seq<Read>, room: nat, size: nat) {
    forall i :: 0 <= i < |inputs| && inputs[i].Datagram? ==>
      0 < |inputs[i].bytes| && |inputs[i].bytes| + size <= room + 1 && PacketSize(inputs[i].tbs) <= size
  }

  /** With datagrams small enough for the room a packet leaves, no byte is ever dropped or
      cut off. */
  lemma {:induction false} NothingLost(l: Line, room: nat, size: nat, inputs: seq<Read>)
    requires Roomy(inputs, room, size) && |l.kept| < size
    ensures Rounds(l, room, inputs).got == l.got + Carried(inputs)
    ensures Rounds(l, room, inputs).mark == l.mark
    decreases |inputs|
  {
    if inputs != [] && inputs[0].Datagram? {
      var next := WholeDatagram(l, room, inputs[0].bytes, inputs[0].tbs);
      assert inputs[0] in inputs;
      NothingLost(next, room, size, inputs[1..]);
      assert l.got + inputs[0].bytes + Carried(inputs[1..]) == l.got + (inputs[0].bytes + Carried(inputs[1..]));
    }
  }

  lemma WholeDatagram(l: Line, room: nat, bytes: seq<byte>, tbs: nat) returns (next: Line)
    requires bytes != [] && |l.kept| + |bytes| <= room
    ensures next == Round(l, room, bytes, tbs) && |next.kept| < PacketSize(tbs)
    ensures PacketSize(tbs) > 0 && next.got == l.got + bytes && next.mark == l.mark
    ensures var p := Cut(l.kept + bytes, PacketSize(tbs)); next.packets == l.packets + p.packets && next.kept == p.kept
  {
    hide Cut;
    PacketSizeHoldsBlock(tbs);
    assert Taken(|l.kept|, room, bytes) == bytes;
    next := Round(l, room, bytes, tbs);
    CutKeepsAll(l.kept + bytes, PacketSize(tbs));
  }

  /** So with a constant packet size, what is handed over depends on the bytes alone and
      not on how the datagrams divide them. */
  lemma {:induction false} DivisionDoesNotMatter(l: Line, room: nat, tbs: nat, inputs: seq<Read>)
    requires PacketSize(tbs) >= 1 && Roomy(inputs, room, PacketSize(tbs)) && |l.kept| < PacketSize(tbs)
    requires forall i :: 0 <= i < |inputs| && inputs[i].Datagram? ==> inputs[i].tbs == tbs
    ensures var end := Rounds(l, room, inputs); var p := Cut(l.kept + Carried(inputs), PacketSize(tbs));
      end.packets == l.packets + p.packets && end.kept == p.kept
    decreases |inputs|
  {
    hide Cut;
    var n := PacketSize(tbs);
    if inputs == [] || inputs[0].Broken? {
      assert l.kept + [] == l.kept;
      CutShort(l.kept, n);
    } else {
      var next := WholeDatagram(l, room, inputs[0].bytes, tbs);
      DivisionDoesNotMatter(next, room, tbs, inputs[1..]);
      CutAppend(l.kept + inputs[0].bytes, Carried(inputs[1..]), n);
      assert l.kept + inputs[0].bytes + Carried(inputs[1..]) == l.kept + (inputs[0].bytes + Carried(inputs[1..]));
    }
  }
}
