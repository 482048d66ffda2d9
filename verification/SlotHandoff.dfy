/** The transmitter's one-packet slot, shared by the receiving thread and the transmit
    loop (MBSFN mode): every interleaving of their atomic steps. */
module SlotHandoff {
  import opened BitSeq

  // ----- the machine -----

  /** The receiving thread: waiting for the slot to be free, or copying a packet into it
      byte by byte, or about to raise the ready flag. */
  datatype Receiver = Waiting | Copying(packet: seq<byte>, done: nat) | Copied

  /** The transmit loop: between subframes, or overwriting the first `n` bytes of the slot
      one by one with a test pattern, or done with that, or past encoding it, or past
      lowering the flag. */
  datatype Sender = Idle | Stamping(n: nat, done: nat) | Encoding(n: nat) | Encoded | Lowered

  /** `taken` logs the packets the receiving thread set out to hand over, `handed` what the
      slot held as the flag was raised, `sent` what was encoded and how much of it had been
      overwritten. */
  datatype State = State(sem: nat, ready: bool, slot: seq<byte>, rx: Receiver, tx: Sender,
                         taken: seq<seq<byte>>, handed: seq<seq<byte>>, sent: seq<Frame>)

  datatype Frame = Frame(content: seq<byte>, stamped: nat)

  function Start(slot: seq<byte>): State { State(1, false, slot, Waiting, Idle, [], [], []) }

  datatype Move =
    | Wait(packet: seq<byte>)  // sem_wait returns
    | CopyByte
    | CopyEnds
    | Raise
    | Poll(n: nat)             // a subframe reads the flag; n bytes will be overwritten
    | StampByte
    | StampEnds
    | Encode
    | Recheck                  // reads the flag once more, and lowers it if it is up
    | Post

  predicate ByReceiver(m: Move) { m.Wait? || m.CopyByte? || m.CopyEnds? || m.Raise? }

  predicate Enabled(s: State, m: Move) {
    match m
    case Wait(p) => s.rx.Waiting? && s.sem > 0 && |p| <= |s.slot|
    case CopyByte => s.rx.Copying? && s.rx.done < |s.rx.packet| <= |s.slot|
    case CopyEnds => s.rx.Copying? && s.rx.done >= |s.rx.packet|
    case Raise => s.rx.Copied?
    case Poll(n) => s.tx.Idle? && n <= |s.slot|
    case StampByte => s.tx.Stamping? && s.tx.done < s.tx.n <= |s.slot|
    case StampEnds => s.tx.Stamping? && s.tx.done >= s.tx.n
    case Encode => s.tx.Encoding?
    case Recheck => s.tx.Encoded?
    case Post => s.tx.Lowered?
  }

  function Pattern(j: nat): byte { j % 255 }

  function Apply(s: State, m: Move): State
    requires Enabled(s, m)
  {
    match m
    case Wait(p) => s.(sem := s.sem - 1, rx := Copying(p, 0), taken := s.taken + [p])
    case CopyByte =>
      s.(slot := s.slot[s.rx.done := s.rx.packet[s.rx.done]], rx := Copying(s.rx.packet, s.rx.done + 1))
    case CopyEnds => s.(rx := Copied)
    case Raise => s.(ready := true, rx := Waiting, handed := s.handed + [s.slot])
    case Poll(n) => if s.ready then s.(tx := Stamping(n, 0)) else s
    case StampByte => s.(slot := s.slot[s.tx.done := Pattern(s.tx.done)], tx := Stamping(s.tx.n, s.tx.done + 1))
    case StampEnds => s.(tx := Encoding(s.tx.n))
    case Encode => s.(tx := Encoded, sent := s.sent + [Frame(s.slot, s.tx.n)])
    case Recheck => if s.ready then s.(ready := false, tx := Lowered) else s.(tx := Idle)
    case Post => s.(sem := s.sem + 1, tx := Idle)
  }

  /** A run that the two threads can make together. */
  predicate Possible(s: State, moves: seq<Move>)
    decreases |moves|
  {
    moves == [] || (Enabled(s, moves[0]) && Possible(Apply(s, moves[0]), moves[1..]))
  }

  function After(s: State, moves: seq<Move>): State
    requires Possible(s, moves)
    decreases |moves|
  {
    if moves == [] then s else After(Apply(s, moves[0]), moves[1..])
  }

  // ----- what every state of every run satisfies -----

  function One(b: bool): nat { if b then 1 else 0 }

  /** The receiver owns the slot between its wait and the flag. */
  predicate Filling(s: State) { !s.rx.Waiting? }

  /** The sender uses the slot from the poll that saw the flag to the re-check. */
  predicate Sending(s: State) { s.tx.Stamping? || s.tx.Encoding? || s.tx.Encoded? }

  /** The slot's one token is in the semaphore, with the receiver, in the flag, or with the
      sender on its way back to the semaphore. */
  predicate OneToken(s: State) {
    s.sem + One(Filling(s)) + One(s.ready) + One(s.tx.Lowered?) == 1
  }

  /** A sender at work has the flag up under it. */
  predicate FlagHeld(s: State) { Sending(s) ==> s.ready }

  /** The slot's first n bytes overwritten by the pattern. */
  function Stamped(slot: seq<byte>, n: nat): (r: seq<byte>)
    ensures |r| == |slot|
  {
    seq(|slot|, j requires 0 <= j < |slot| => if j < n then Pattern(j) else slot[j])
  }

  /** Every packet handed over has been encoded, but for one while its flag is up and its
      encoding still to come. */
  predicate Counted(s: State) {
    && |s.taken| == |s.handed| + One(Filling(s))
    && |s.handed| == |s.sent| + One(s.ready && !s.tx.Encoded?)
  }

  /** Every frame is its packet with the pattern over its first bytes. */
  ghost predicate FramesMatch(s: State) {
    |s.sent| <= |s.handed|
    && forall i :: 0 <= i < |s.sent| ==> s.sent[i].content == Stamped(s.handed[i], s.sent[i].stamped)
  }

  /** The slot begins with the packet. */
  predicate Holds(slot: seq<byte>, packet: seq<byte>) { packet <= slot }

  /** Everything handed over is the packet taken, whole. */
  ghost predicate HandedWhole(s: State) {
    |s.handed| <= |s.taken| && forall i :: 0 <= i < |s.handed| ==> Holds(s.handed[i], s.taken[i])
  }

  /** The packet being received, as far as it has got into the slot. */
  predicate Received(s: State) {
    Filling(s) ==>
      && s.taken != []
      && var p := s.taken[|s.taken| - 1];
      if s.rx.Copying? then s.rx.packet == p && s.rx.done <= |p| && Holds(s.slot, p[..s.rx.done]) else Holds(s.slot, p)
  }

  /** How far the pattern has got over the packet being sent. */
  function StampedSoFar(tx: Sender): nat {
    match tx
    case Stamping(_, done) => done
    case Encoding(n) => n
    case _ => 0
  }

  /** While a packet is ready the slot holds it, but for the sender's own stamps. */
  predicate SlotHolds(s: State) {
    s.ready && !s.tx.Encoded? ==> s.handed != [] && s.slot == Stamped(s.handed[|s.handed| - 1], StampedSoFar(s.tx))
  }

  predicate Progress(s: State) {
    (s.tx.Stamping? ==> s.tx.done <= s.tx.n <= |s.slot|) && (s.tx.Encoding? ==> s.tx.n <= |s.slot|)
    && (s.rx.Copying? ==> |s.rx.packet| <= |s.slot| && s.rx.done <= |s.rx.packet|)
  }

  ghost predicate Safe(s: State) {
    && OneToken(s) && FlagHeld(s) && Counted(s)
    && FramesMatch(s) && SlotHolds(s) && Progress(s)
    && HandedWhole(s) && Received(s)
  }

  lemma StartSafe(slot: seq<byte>)
    ensures Safe(Start(slot))
  {
  }

  lemma StampNothing(slot: seq<byte>)
    ensures Stamped(slot, 0) == slot
  {
  }

  lemma StampOneMore(slot: seq<byte>, n: nat)
    requires n < |slot|
    ensures Stamped(slot, n)[n := Pattern(n)] == Stamped(slot, n + 1)
  {
  }

  lemma StepKeepsFrames(s: State, m: Move)
    requires Safe(s) && Enabled(s, m)
    ensures FramesMatch(Apply(s, m))
  {
    hide Stamped, Pattern, HandedWhole, Received;
  }

  lemma StepKeepsSlot(s: State, m: Move)
    requires Safe(s) && Enabled(s, m)
    ensures SlotHolds(Apply(s, m))
  {
    hide Stamped, Pattern, FramesMatch, HandedWhole, Received;
    StampNothing(s.slot);
    if m.StampByte? {
      StampOneMore(s.handed[|s.handed| - 1], s.tx.done);
    }
  }

  lemma StepKeepsReceived(s: State, m: Move)
    requires Safe(s) && Enabled(s, m)
    ensures Received(Apply(s, m))
  {
    hide Stamped, Pattern, FramesMatch, SlotHolds, HandedWhole;
    if m.CopyByte? {
      var p, k := s.rx.packet, s.rx.done;
      assert p[..k + 1] == p[..k] + [p[k]];
    } else if m.CopyEnds? {
      assert s.rx.packet[..s.rx.done] == s.rx.packet;
    }
  }

  lemma StepKeepsHanded(s: State, m: Move)
    requires Safe(s) && Enabled(s, m)
    ensures HandedWhole(Apply(s, m))
  {
    hide Stamped, Pattern, FramesMatch, SlotHolds, Holds;
  }

  lemma StepKeepsTokens(s: State, m: Move)
    requires Safe(s) && Enabled(s, m)
    ensures OneToken(Apply(s, m)) && FlagHeld(Apply(s, m)) && Counted(Apply(s, m)) && Progress(Apply(s, m))
  {
    hide Stamped, Pattern, FramesMatch, SlotHolds, HandedWhole, Holds;
  }

  lemma {:induction false} RunSafe(s: State, moves: seq<Move>)
    requires Safe(s) && Possible(s, moves)
    ensures Safe(After(s, moves))
    decreases |moves|
  {
    hide OneToken, FlagHeld, Counted, FramesMatch, SlotHolds, Progress, HandedWhole, Received, Apply, Enabled;
    if moves != [] {
      StepKeepsTokens(s, moves[0]);
      StepKeepsFrames(s, moves[0]);
      StepKeepsSlot(s, moves[0]);
      StepKeepsReceived(s, moves[0]);
      StepKeepsHanded(s, moves[0]);
      RunSafe(Apply(s, moves[0]), moves[1..]);
    }
  }

  // ----- what follows for any run -----

  /** The slot is never written by the receiver while a packet is ready or being sent, nor
      by the sender while one is being received; and the second look at the flag, before
      it is lowered, always finds it up. */
  lemma SlotIsNeverShared(slot: seq<byte>, moves: seq<Move>)
    requires Possible(Start(slot), moves)
    ensures var s := After(Start(slot), moves);
      && s.sem + One(Filling(s)) + One(s.ready) + One(s.tx.Lowered?) == 1
      && !(Filling(s) && (s.ready || Sending(s)))
      && (s.tx.Encoded? ==> s.ready)
  {
    hide Possible, After;
    StartSafe(slot);
    RunSafe(Start(slot), moves);
  }

  /** Every packet taken is encoded exactly once and in order, whole and untorn but for the
      pattern: each frame is what the slot held, with the pattern over its first bytes, and
      what the slot held begins with the packet.  At most the latest is still to come. */
  lemma PacketsAreSentInOrder(slot: seq<byte>, moves: seq<Move>)
    requires Possible(Start(slot), moves)
    ensures var s := After(Start(slot), moves);
            && |s.sent| <= |s.handed| <= |s.taken| <= |s.sent| + 1
            && (forall i :: 0 <= i < |s.handed| ==> s.taken[i] <= s.handed[i])
            && (forall i :: 0 <= i < |s.sent| ==> s.sent[i].content == Stamped(s.handed[i], s.sent[i].stamped))
  {
    hide Possible, After, Stamped;
    StartSafe(slot);
    RunSafe(Start(slot), moves);
    var s := After(Start(slot), moves);
    forall i | 0 <= i < |s.handed|
      ensures s.taken[i] <= s.handed[i]
    {
      assert Holds(s.handed[i], s.taken[i]);
    }
  }

  /** A packet reaches the frame unchanged from the first byte not overwritten on. */
  lemma TakenIsSent(slot: seq<byte>, moves: seq<Move>, i: nat, j: nat)
    requires Possible(Start(slot), moves)
    requires var s := After(Start(slot), moves); i < |s.sent| && i < |s.taken| && j < |s.taken[i]|
    ensures var s := After(Start(slot), moves);
            && j < |s.sent[i].content|
            && s.sent[i].content[j] == if j < s.sent[i].stamped then j % 255 else s.taken[i][j]
  {
    hide Possible, After;
    PacketsAreSentInOrder(slot, moves);
    var s := After(Start(slot), moves);
    assert s.taken[i] <= s.handed[i];
  }

  /** What goes out is what was handed over exactly when the overwritten bytes already
      were the pattern. */
  lemma SentAsHanded(packet: seq<byte>, n: nat)
    requires n <= |packet|
    ensures Stamped(packet, n) == packet <==> (forall j :: 0 <= j < n ==> packet[j] == j % 255)
  {
    if Stamped(packet, n) == packet {
      forall j | 0 <= j < n
        ensures packet[j] == j % 255
      {
        assert packet[j] == Stamped(packet, n)[j];
      }
    }
  }

  // ----- what the logs are -----

  /** The packets the semaphore let in. */
  function Arrivals(moves: seq<Move>): seq<seq<byte>> {
    if moves == [] then [] else (if moves[0].Wait? then [moves[0].packet] else []) + Arrivals(moves[1..])
  }

  /** How much was to be overwritten in each subframe that found the flag up. */
  function ReadyPolls(s: State, moves: seq<Move>): seq<nat>
    requires Possible(s, moves)
    decreases |moves|
  {
    if moves == [] then []
    else (if moves[0].Poll? && s.ready then [moves[0].n] else []) + ReadyPolls(Apply(s, moves[0]), moves[1..])
  }

  /** The stamps of the frames sent, and of the one in the making. */
  function Stamps(s: State): seq<nat> {
    seq(|s.sent|, i requires 0 <= i < |s.sent| => s.sent[i].stamped)
    + match s.tx case Stamping(n, _) => [n] case Encoding(n) => [n] case _ => []
  }

  lemma StampsNext(s: State, m: Move)
    requires Enabled(s, m)
    ensures Stamps(Apply(s, m)) == Stamps(s) + if m.Poll? && s.ready then [m.n] else []
    ensures Apply(s, m).taken == s.taken + if m.Wait? then [m.packet] else []
  {
    hide Pattern;
  }

  /** In any run, the packets taken are those that arrived, and each subframe that found the flag up
      stamps one frame by its own count: nothing is skipped, repeated or made up. */
  lemma {:induction false} LogsAreTheMoves(s: State, moves: seq<Move>)
    requires Possible(s, moves)
    ensures After(s, moves).taken == s.taken + Arrivals(moves)
    ensures Stamps(After(s, moves)) == Stamps(s) + ReadyPolls(s, moves)
    decreases |moves|
  {
    hide Apply, Enabled, Stamps;
    if moves != [] {
      StampsNext(s, moves[0]);
      LogsAreTheMoves(Apply(s, moves[0]), moves[1..]);
    }
  }

  // ----- progress -----

  /** Where the sender stands, as moves left before it posts. */
  function MovesLeft(tx: Sender): nat
    requires tx.Stamping? ==> tx.done <= tx.n
  {
    match tx
    case Idle => 5
    case Stamping(n, done) => n - done + 4
    case Encoding(_) => 3
    case Encoded => 2
    case Lowered => 1
  }

  /** From any safe state in which the receiver is held up at the semaphore, the sender alone
      can free the slot, in no more moves than it has left. */
  lemma {:induction false} SenderFreesSlot(s: State) returns (moves: seq<Move>)
    requires Safe(s) && s.rx.Waiting? && s.sem == 0
    ensures forall m :: m in moves ==> !ByReceiver(m)
    ensures Possible(s, moves) && After(s, moves).sem == 1 && |moves| <= MovesLeft(s.tx)
    decreases MovesLeft(s.tx)
  {
    var m := match s.tx
      case Idle => Poll(0)
      case Stamping(n, done) => if done < n then StampByte else StampEnds
      case Encoding(_) => Encode
      case Encoded => Recheck
      case Lowered => Post;
    var next := Apply(s, m);
    if m.Post? {
      moves := [m];
      assert moves[1..] == [];
    } else {
      StepKeepsTokens(s, m);
      StepKeepsFrames(s, m);
      StepKeepsSlot(s, m);
      StepKeepsReceived(s, m);
      StepKeepsHanded(s, m);
      var rest := SenderFreesSlot(next);
      moves := [m] + rest;
      assert moves[1..] == rest;
    }
  }

  /** Where the receiver stands, as moves left before the flag is up. */
  function MovesToRaise(rx: Receiver): nat
    requires rx.Copying? ==> rx.done <= |rx.packet|
  {
    match rx
    case Waiting => 0
    case Copying(packet, done) => |packet| - done + 2
    case Copied => 1
  }

  /** A receiver with a packet in hand can alone get it into the slot and raise the flag. */
  lemma {:induction false} ReceiverHandsOver(s: State) returns (moves: seq<Move>)
    requires Safe(s) && !s.rx.Waiting?
    ensures forall m :: m in moves ==> ByReceiver(m) && !m.Wait?
    ensures Possible(s, moves) && |moves| == MovesToRaise(s.rx)
    ensures var t := After(s, moves); t.ready && t.rx.Waiting? && |t.handed| == |s.handed| + 1
    decreases MovesToRaise(s.rx)
  {
    var m := match s.rx
      case Copying(packet, done) => if done < |packet| then CopyByte else CopyEnds
      case Copied => Raise;
    var next := Apply(s, m);
    if m.Raise? {
      moves := [m];
      assert moves[1..] == [];
    } else {
      StepKeepsTokens(s, m);
      StepKeepsFrames(s, m);
      StepKeepsSlot(s, m);
      StepKeepsReceived(s, m);
      StepKeepsHanded(s, m);
      var rest := ReceiverHandsOver(next);
      moves := [m] + rest;
      assert moves[1..] == rest;
    }
  }

  /** And whenever the semaphore is up, a waiting receiver can take any packet that fits. */
  lemma {:induction false} AnyPacketIsTaken(s: State, packet: seq<byte>) returns (moves: seq<Move>)
    requires Safe(s) && s.rx.Waiting? && s.sem == 1 && |packet| <= |s.slot|
    ensures Possible(s, moves) && moves != [] && moves[0] == Wait(packet)
    ensures var t := After(s, moves);
            t.ready && t.taken == s.taken + [packet] && |t.handed| == |t.taken| && packet <= t.handed[|t.handed| - 1]
  {
    var m := Wait(packet);
    StepKeepsTokens(s, m);
    StepKeepsFrames(s, m);
    StepKeepsSlot(s, m);
    StepKeepsReceived(s, m);
    StepKeepsHanded(s, m);
    var next := Apply(s, m);
    var rest := ReceiverHandsOver(next);
    moves := [m] + rest;
    assert moves[1..] == rest;
    RunSafe(next, rest);
    LogsAreTheMoves(next, rest);
    NoArrivals(rest);
    assert Holds(After(next, rest).handed[|s.taken|], packet);
  }

  lemma {:induction false} NoArrivals(moves: seq<Move>)
    requires forall m :: m in moves ==> !m.Wait?
    ensures Arrivals(moves) == []
    decreases |moves|
  {
    if moves != [] {
      NoArrivals(moves[1..]);
    }
  }
}
