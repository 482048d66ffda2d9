/** The decoder's message queue: a linked list that producers append to and the decoding
    thread takes from, each under the queue's lock, so that a run is some order of whole
    operations. */
module MsgQueue {
  import opened BitSeq

  // ----- the queue as values -----

  const MIB_4G := 0
  const SIB_4G := 1

  datatype Message = Message(payload: seq<byte>, kind: int, tti: nat)

  /** What the log gets of a message: its time line, and then its contents, decoded, or a note
      that there is no decoder; of an unknown kind the time line alone. */
  datatype Entry = Mib(tti: nat, payload: seq<byte>) | Sib(tti: nat, payload: seq<byte>) | NoDecoder(tti: nat) | Unknown(tti: nat)

  function Logged(m: Message, decoder: bool): Entry {
    if m.kind != MIB_4G && m.kind != SIB_4G then Unknown(m.tti)
    else if !decoder then NoDecoder(m.tti)
    else if m.kind == MIB_4G then Mib(m.tti, m.payload)
    else Sib(m.tti, m.payload)
  }

  function Entries(ms: seq<Message>, decoder: bool): (log: seq<Entry>)
    ensures |log| == |ms|
  {
    seq(|ms|, i requires 0 <= i < |ms| => Logged(ms[i], decoder))
  }

  /** Messages waiting, held by the decoding thread, written to the log, or dropped by it
      because the log was closed, which ends the thread. */
  datatype State = State(waiting: seq<Message>, held: seq<Message>, written: seq<Message>, dropped: seq<Message>,
                         logOpen: bool, running: bool)

  datatype Op =
    | Push(m: Message, fits: bool)  // whether both allocations succeed
    | Pop                                // the decoding thread polls
    | Decode                             // and writes what it holds
    | Terminate                          // the log is closed

  function Apply(s: State, op: Op): State {
    match op
    case Push(m, fits) => if fits then s.(waiting := s.waiting + [m]) else s
    case Pop =>
      if !s.running || s.held != [] || s.waiting == [] then s
      else s.(held := [s.waiting[0]], waiting := s.waiting[1..])
    case Decode =>
      if s.held == [] then s
      else if s.logOpen then s.(written := s.written + s.held, held := [])
      else s.(dropped := s.dropped + s.held, held := [], running := false)
    case Terminate => s.(logOpen := false)
  }

  function Run(s: State, ops: seq<Op>): State
    decreases |ops|
  {
    if ops == [] then s else Run(Apply(s, ops[0]), ops[1..])
  }

  /** A new decoder; if its log could not be opened, the thread ends before it takes a message. */
  function Begin(hasLog: bool): State { State([], [], [], [], hasLog, hasLog) }

  /** The messages whose push succeeded, in order. */
  function Accepted(ops: seq<Op>): seq<Message> {
    if ops == [] then []
    else (if ops[0].Push? && ops[0].fits then [ops[0].m] else []) + Accepted(ops[1..])
  }

  function Everything(s: State): seq<Message> { s.written + s.dropped + s.held + s.waiting }

  /** The thread holds one message at most, and drops one only to stop. */
  predicate Orderly(s: State) {
    |s.held| <= 1 && |s.dropped| <= 1 && (s.dropped != [] ==> s.held == [] && !s.running && !s.logOpen)
  }

  lemma PushKeeps(s: State, m: Message)
    ensures Everything(s.(waiting := s.waiting + [m])) == Everything(s) + [m]
  {
    var front := s.written + s.dropped + s.held;
    assert front + (s.waiting + [m]) == front + s.waiting + [m];
  }

  lemma PushedState(s: State, m: Message)
    ensures Apply(s, Push(m, true)) == s.(waiting := s.waiting + [m])
  {
  }

  lemma PopKeeps(s: State)
    requires s.held == [] && s.waiting != []
    ensures Everything(s.(held := [s.waiting[0]], waiting := s.waiting[1..])) == Everything(s)
  {
    var front := s.written + s.dropped;
    assert front + [] == front;
    assert front + [s.waiting[0]] + s.waiting[1..] == front + ([s.waiting[0]] + s.waiting[1..]);
    assert s.waiting == [s.waiting[0]] + s.waiting[1..];
  }

  lemma DecodeKeeps(s: State)
    requires s.held != [] ==> s.dropped == []
    ensures Everything(Apply(s, Decode)) == Everything(s)
  {
    if s.held != [] {
      assert s.written + [] == s.written;
      assert s.written + s.held + [] + [] == s.written + s.held;
    }
  }

  lemma ApplyOrderly(s: State, op: Op)
    requires Orderly(s)
    ensures Orderly(Apply(s, op))
  {
  }

  lemma ApplyKeeps(s: State, op: Op)
    requires Orderly(s)
    ensures Orderly(Apply(s, op))
    ensures Everything(Apply(s, op)) == Everything(s) + Accepted([op])
  {
    ApplyOrderly(s, op);
    AcceptedOne(op);
    hide Accepted;
    match op
    case Push(m, fits) => PushKeeps(s, m);
    case Pop =>
      if Apply(s, op) != s {
        PopKeeps(s);
      }
    case Decode => DecodeKeeps(s);
    case Terminate =>
  }

  lemma AcceptedOne(op: Op)
    ensures Accepted([op]) == if op.Push? && op.fits then [op.m] else []
  {
    assert [op][1..] == [];
  }

  lemma AcceptedFirst(ops: seq<Op>)
    requires ops != []
    ensures Accepted(ops) == Accepted([ops[0]]) + Accepted(ops[1..])
  {
    assert [ops[0]][1..] == [];
  }

  /** Whatever the order of operations, what was written, then what was dropped, then what is
      held and what still waits are the accepted messages, once each and in order; and at
      most one is dropped, by a thread that then takes no more. */
  lemma {:induction false} FirstInFirstOut(s: State, ops: seq<Op>)
    requires Orderly(s)
    ensures Everything(Run(s, ops)) == Everything(s) + Accepted(ops) && Orderly(Run(s, ops))
    decreases |ops|
  {
    hide Apply, Everything, Orderly;
    if ops != [] {
      ApplyKeeps(s, ops[0]);
      AcceptedFirst(ops);
      FirstInFirstOut(Apply(s, ops[0]), ops[1..]);
    }
  }

  /** The log is always what was accepted first. */
  lemma LogIsPrefix(hasLog: bool, ops: seq<Op>)
    ensures Run(Begin(hasLog), ops).written <= Accepted(ops)
    ensures Run(Begin(hasLog), ops).logOpen ==> Run(Begin(hasLog), ops).dropped == []
  {
    hide Run, Accepted;
    FirstInFirstOut(Begin(hasLog), ops);
    assert Everything(Begin(hasLog)) + Accepted(ops) == Accepted(ops);
  }

  /** Polling and writing by turns, n times. */
  function Turns(n: nat): seq<Op> { if n == 0 then [] else [Pop, Decode] + Turns(n - 1) }

  /** As long as the log is open the thread gets everything written, in one turn a message. */
  lemma {:induction false} EverythingGetsWritten(s: State)
    requires s.running && s.logOpen && s.held == []
    ensures Run(s, Turns(|s.waiting|)) == s.(written := s.written + s.waiting, waiting := [])
    decreases |s.waiting|
  {
    if s.waiting == [] {
      assert s.written + s.waiting == s.written;
    } else {
      var n := |s.waiting| - 1;
      var ops, first := Turns(n + 1), s.waiting[0];
      var next := s.(written := s.written + [first], waiting := s.waiting[1..]);
      assert ops[0] == Pop && ops[1..][0] == Decode && ops[1..][1..] == Turns(n);
      assert Apply(Apply(s, Pop), Decode) == next;
      EverythingGetsWritten(next);
      assert s.written + [first] + s.waiting[1..] == s.written + s.waiting;
    }
  }

  predicate Idle(s: State) { !s.running && s.held == [] && s.written == [] && s.dropped == [] }

  lemma {:induction false} IdleRun(s: State, ops: seq<Op>)
    requires Idle(s)
    ensures Idle(Run(s, ops))
    decreases |ops|
  {
    if ops != [] {
      IdleRun(Apply(s, ops[0]), ops[1..]);
    }
  }

  /** Without a log every message accepted waits for ever. */
  lemma NoLogNoReader(ops: seq<Op>)
    ensures Run(Begin(false), ops).waiting == Accepted(ops) && Run(Begin(false), ops).written == []
  {
    hide Run, Accepted;
    IdleRun(Begin(false), ops);
    FirstInFirstOut(Begin(false), ops);
    assert Everything(Begin(false)) + Accepted(ops) == Accepted(ops);
    assert Everything(Run(Begin(false), ops)) == Run(Begin(false), ops).waiting;
  }

  // ----- the linked list -----

  class Node {
    var next: Node?
    const payload: array<byte>
    const kind: int
    const tti: nat

    constructor (payload: array<byte>, kind: int, tti: nat)
      ensures this.payload == payload && this.kind == kind && this.tti == tti && next == null
    {
      this.payload, this.kind, this.tti, next := payload, kind, tti, null;
    }

    function Content(): Message
      reads payload
    {
      Message(payload[..], kind, tti)
    }
  }

  function Following(s: seq<Node>, i: nat): Node? {
    if i + 1 < |s| then s[i + 1] else null
  }

  /** Following `next` from n visits exactly the nodes of s, in order, and ends. */
  ghost predicate Chain(n: Node?, s: seq<Node>)
    reads s
  {
    && (if s == [] then n == null else n == s[0])
    && forall i: nat :: i < |s| ==> s[i].next == Following(s, i)
  }

  ghost function Contents(s: seq<Node>): (r: seq<Message>)
    reads set n | n in s :: n.payload
    ensures |r| == |s|
  {
    seq(|s|, i requires 0 <= i < |s| reads if 0 <= i < |s| then {s[i].payload} else {} => s[i].Content())
  }

  lemma ContentsAppend(s: seq<Node>, node: Node)
    ensures Contents(s + [node]) == Contents(s) + [node.Content()]
  {
  }

  /** So no node is reached twice. */
  lemma {:induction false} NoCycle(n: Node?, s: seq<Node>, i: nat, j: nat)
    requires Chain(n, s) && i < j < |s|
    ensures s[i] != s[j]
    decreases |s| - j
  {
    if s[i] == s[j] {
      assert s[i].next == Following(s, i) && s[j].next == Following(s, j);
      if j + 1 < |s| {
        NoCycle(n, s, i + 1, j + 1);
      }
    }
  }

  /** And there is one way to follow it. */
  lemma {:induction false} ChainIsUnique(n: Node?, s: seq<Node>, t: seq<Node>)
    requires Chain(n, s) && Chain(n, t)
    ensures s == t
    decreases |s|
  {
    if s != [] && t != [] {
      ChainTail(n, s);
      ChainTail(n, t);
      ChainIsUnique(s[0].next, s[1..], t[1..]);
      assert s == [s[0]] + s[1..] && t == [t[0]] + t[1..];
    }
  }

  lemma ChainTail(n: Node?, s: seq<Node>)
    requires Chain(n, s) && s != []
    ensures Chain(s[0].next, s[1..])
  {
    assert s[0].next == Following(s, 0);
    forall i: nat | i < |s| - 1
      ensures s[1..][i].next == Following(s[1..], i)
    {
      assert s[i + 1].next == Following(s, i + 1);
    }
  }

  method MemCopy(from: array<byte>) returns (copy: array<byte>)
    ensures fresh(copy) && copy[..] == from[..]
  {
    copy := new byte[from.Length];
    for i := 0 to from.Length
      invariant copy[..i] == from[..i]
    {
      copy[i] := from[i];
    }
  }

  lemma CopiedContent(node: Node, m: Message)
    requires node.payload[..] == m.payload && node.kind == m.kind && node.tti == m.tti
    ensures node.Content() == m
  {
  }

  lemma EntriesAppend(ms: seq<Message>, m: Message, decoder: bool)
    ensures Entries(ms + [m], decoder) == Entries(ms, decoder) + [Logged(m, decoder)]
  {
  }

  class ASNDecoder {
    var first: Node?
    var last: Node?
    var held: Node?
    var log: seq<Entry>
    const decoder: bool
    var logOpen: bool
    var running: bool

    ghost var nodes: seq<Node>
    ghost var written: seq<Message>
    ghost var dropped: seq<Message>

    /** `nodes` are the nodes reachable from `first`, and `last` is the final one; the
        thread holds none of them; the log has an entry for each message written. */
    ghost predicate Valid()
      reads this, nodes
    {
      && Chain(first, nodes)
      && (if nodes == [] then last == null else last == nodes[|nodes| - 1])
      && (held != null ==> held !in nodes)
      && log == Entries(written, decoder)
    }

    ghost function Now(): State
      reads this, nodes, set n | n in nodes :: n.payload
      reads if held == null then {} else {held.payload}
    {
      State(Contents(nodes), if held == null then [] else [held.Content()], written, dropped, logOpen, running)
    }

    constructor (decoder: bool, hasLog: bool)
      ensures Valid() && Now() == Begin(hasLog) && nodes == [] && this.decoder == decoder
    {
      this.decoder := decoder;
      first, last, held, log, logOpen, running := null, null, null, [], hasLog, hasLog;
      nodes, written, dropped := [], [], [];
    }

    method QueuePush(node: Node)
      requires Valid() && node !in nodes && node != held && node.next == null
      modifies `first, `last, `nodes, if last == null then {} else {last}
      ensures Valid() && nodes == old(nodes) + [node]
    {
      if last == null {
        first := node;
        last := node;
      } else {
        forall i: nat | i < |nodes| - 1
          ensures nodes[i] != nodes[|nodes| - 1]
        {
          NoCycle(first, nodes, i, |nodes| - 1);
        }
        last.next := node;
        last := node;
      }
      nodes := nodes + [node];
    }

    method QueuePop() returns (node: Node?)
      requires Valid() && held == null
      modifies `first, `last, `nodes
      ensures Valid()
      ensures if old(nodes) == [] then node == null && nodes == []
              else node == old(nodes)[0] && nodes == old(nodes)[1..] && node !in nodes
    {
      if first == null {
        return null;
      }
      forall i: nat | 0 < i < |nodes|
        ensures nodes[i] != nodes[0]
      {
        NoCycle(first, nodes, 0, i);
      }
      ChainTail(first, nodes);
      node := first;
      if first == last {
        first := null;
        last := null;
      } else {
        first := node.next;
      }
      nodes := nodes[1..];
    }

    /** Copies the payload into a node of its own and appends it. */
    method PushAsnPayload(payload: array<byte>, kind: int, tti: nat, nodeFits: bool, payloadFits: bool)
      returns (code: int)
      requires Valid()
      modifies `first, `last, `nodes, if last == null then {} else {last}
      ensures Valid()
      ensures Now() == Apply(old(Now()), Push(Message(old(payload[..]), kind, tti), nodeFits && payloadFits))
      ensures code == if nodeFits && payloadFits then 0 else 1
      ensures if code == 0 then
                && nodes != [] && nodes[..|nodes| - 1] == old(nodes)
                && fresh(nodes[|nodes| - 1]) && fresh(nodes[|nodes| - 1].payload)
              else nodes == old(nodes)
    {
      hide ASNDecoder.Valid, Contents, Chain;
      if !nodeFits {
        return 1;
      }
      if !payloadFits {
        return 1;
      }
      hide *;
      var copy := MemCopy(payload);
      var node := new Node(copy, kind, tti);
      CopiedContent(node, Message(payload[..], kind, tti));
      PushNode(node);
      PushedState(old(Now()), Message(payload[..], kind, tti));
      code := 0;
    }

    method PushNode(node: Node)
      requires Valid() && node !in nodes && node != held && node.next == null
      modifies `first, `last, `nodes, if last == null then {} else {last}
      ensures Valid() && Now() == old(Now()).(waiting := old(Now().waiting) + [node.Content()])
      ensures nodes == old(nodes) + [node]
    {
      hide ASNDecoder.Valid, Contents;
      ghost var before := Contents(nodes);
      ContentsAppend(nodes, node);
      QueuePush(node);
      assert Contents(nodes) == before + [node.Content()];
    }

    /** One poll of the decoding thread. */
    method Poll()
      requires Valid()
      modifies `first, `last, `nodes, `held
      ensures Valid() && Now() == Apply(old(Now()), Pop)
      ensures forall n :: n in nodes ==> n in old(nodes)
    {
      if running && held == null {
        held := QueuePop();
        assert held != null ==> Contents(nodes) == old(Contents(nodes))[1..];
      }
    }

    /** The decoding thread writes the message it holds, or ends if the log is closed. */
    method DecodeHeld()
      requires Valid()
      modifies `held, `log, `running, `written, `dropped
      ensures Valid() && Now() == Apply(old(Now()), Decode)
    {
      if held != null {
        if !logOpen {
          running := false;
          dropped := dropped + [held.Content()];
        } else {
          EntriesAppend(written, held.Content(), decoder);
          written := written + [held.Content()];
          if held.kind != MIB_4G && held.kind != SIB_4G {
            log := log + [Unknown(held.tti)];
          } else if !decoder {
            log := log + [NoDecoder(held.tti)];
          } else if held.kind == MIB_4G {
            log := log + [Mib(held.tti, held.payload[..])];
          } else {
            log := log + [Sib(held.tti, held.payload[..])];
          }
        }
        held := null;
      }
    }

    method TerminateLog()
      requires Valid()
      modifies `logOpen
      ensures Valid() && Now() == Apply(old(Now()), Terminate)
    {
      logOpen := false;
    }
  }

  method ArrayOf(s: seq<byte>) returns (a: array<byte>)
    ensures fresh(a) && a[..] == s
  {
    a := new byte[|s|];
    for i := 0 to |s|
      invariant a[..i] == s[..i]
    {
      a[i] := s[i];
    }
  }

  /** A decoder put through any order of operations: its log has the entries of the first
      messages accepted, in order. */
  method Operate(ops: seq<Op>, decoder: bool, hasLog: bool) returns (log: seq<Entry>)
    ensures log == Entries(Run(Begin(hasLog), ops).written, decoder)
    ensures log <= Entries(Accepted(ops), decoder)
    ensures forall i :: 0 <= i < |log| ==>
              && i < |Accepted(ops)|
              && var m := Accepted(ops)[i];
                 log[i] == if m.kind == 0 && decoder then Mib(m.tti, m.payload)
                           else if m.kind == 1 && decoder then Sib(m.tti, m.payload)
                           else if m.kind == 0 || m.kind == 1 then NoDecoder(m.tti)
                           else Unknown(m.tti)
  {
    hide ASNDecoder.Valid, ASNDecoder.Now, Apply, Contents, Entries;
    var d := new ASNDecoder(decoder, hasLog);
    for i := 0 to |ops|
      invariant d.Valid() && fresh(d) && d.decoder == decoder
      invariant forall k :: 0 <= k < |d.nodes| ==> fresh(d.nodes[k])
      invariant Run(d.Now(), ops[i..]) == Run(Begin(hasLog), ops)
    {
      assert ops[i..][0] == ops[i] && ops[i..][1..] == ops[i + 1..];
      Operation(d, ops[i]);
      assert forall k :: 0 <= k < |d.nodes| ==> d.nodes[k] in d.nodes;
    }
    log := d.log;
    LogOf(d);
    LogIsPrefix(hasLog, ops);
    EntriesPrefix(Run(Begin(hasLog), ops).written, Accepted(ops), decoder);
    EntriesAre(Accepted(ops), decoder);
  }

  lemma LogOf(d: ASNDecoder)
    requires d.Valid()
    ensures d.log == Entries(d.Now().written, d.decoder)
  {
  }

  /** A block or information message in full if there is a decoder for it, a note if there is
      none, and of any other kind the time alone. */
  lemma EntriesAre(ms: seq<Message>, decoder: bool)
    ensures forall i | 0 <= i < |ms| ::
              Entries(ms, decoder)[i] ==
                if ms[i].kind == 0 && decoder then Mib(ms[i].tti, ms[i].payload)
                else if ms[i].kind == 1 && decoder then Sib(ms[i].tti, ms[i].payload)
                else if ms[i].kind == 0 || ms[i].kind == 1 then NoDecoder(ms[i].tti)
                else Unknown(ms[i].tti)
  {
  }

  lemma EntriesPrefix(a: seq<Message>, b: seq<Message>, decoder: bool)
    requires a <= b
    ensures Entries(a, decoder) <= Entries(b, decoder)
  {
  }

  method Operation(d: ASNDecoder, op: Op)
    requires d.Valid()
    modifies d, d.nodes
    ensures d.Valid() && d.Now() == Apply(old(d.Now()), op)
    ensures forall n :: n in d.nodes ==> n in old(d.nodes) || fresh(n)
  {
    hide ASNDecoder.Now, Apply, Contents;
    match op
    case Push(m, fits) =>
      var payload := ArrayOf(m.payload);
      var code := d.PushAsnPayload(payload, m.kind, m.tti, fits, fits);
    case Pop => d.Poll();
    case Decode => d.DecodeHeld();
    case Terminate => d.TerminateLog();
  }
}
