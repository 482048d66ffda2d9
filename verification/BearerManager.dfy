/** The bearer maps of one user and of the base station: EPS bearer identity to radio
    bearer, and logical channel back to EPS bearer identity. */
module BearerManager {

  // ----- the two maps as values -----

  datatype Rat = NULLTYPE | LTE | NR

  datatype RadioBearer = RadioBearer(rat: Rat, lcid: nat, epsBearerId: nat, fiveQi: nat)

  const INVALID_RB := RadioBearer(NULLTYPE, 0, 0, 0)

  datatype Maps = Maps(bearers: map<nat, RadioBearer>, index: map<nat, nat>)

  const EMPTY := Maps(map[], map[])

  datatype Op =
    | Add(id: nat, rat: Rat, lcid: nat)
    | Remove(id: nat)
    | Reset
    | SetFiveQi(id: nat, fiveQi: nat)

  /** The reverse entry of a logical channel is kept if there is one already; removing a
      bearer drops the entry of its channel, whichever bearer that names. */
  function Apply(m: Maps, op: Op): Maps {
    match op
    case Add(id, rat, lcid) =>
      if id in m.bearers then m
      else Maps(m.bearers[id := RadioBearer(rat, lcid, id, 0)],
                if lcid in m.index then m.index else m.index[lcid := id])
    case Remove(id) =>
      if id !in m.bearers then m
      else Maps(m.bearers - {id}, m.index - {m.bearers[id].lcid})
    case Reset => EMPTY
    case SetFiveQi(id, fiveQi) =>
      if id !in m.bearers then m
      else m.(bearers := m.bearers[id := m.bearers[id].(fiveQi := fiveQi)])
  }

  function Run(ops: seq<Op>): Maps {
    if ops == [] then EMPTY else Apply(Run(ops[..|ops| - 1]), ops[|ops| - 1])
  }

  // ----- lookups -----

  function RadioBearerOf(m: Maps, id: nat): RadioBearer {
    if id in m.bearers then m.bearers[id] else INVALID_RB
  }

  /** Every reverse entry names a live bearer on that channel. */
  ghost predicate Sound(m: Maps) {
    && (forall lcid :: lcid in m.index ==> m.index[lcid] in m.bearers && m.bearers[m.index[lcid]].lcid == lcid)
    && (forall id :: id in m.bearers ==> m.bearers[id].epsBearerId == id)
  }

  function LcidBearer(m: Maps, lcid: nat): RadioBearer
    requires Sound(m)
  {
    if lcid in m.index then m.bearers[m.index[lcid]] else INVALID_RB
  }

  lemma ApplySound(m: Maps, op: Op)
    requires Sound(m)
    ensures Sound(Apply(m, op))
  {
  }

  /** So the lookup by logical channel never asks for a bearer that is gone. */
  lemma {:induction false} RunSound(ops: seq<Op>)
    ensures Sound(Run(ops))
    decreases |ops|
  {
    if ops != [] {
      RunSound(ops[..|ops| - 1]);
      ApplySound(Run(ops[..|ops| - 1]), ops[|ops| - 1]);
    }
  }

  // ----- which bearer a logical channel leads to -----

  /** What a step does to a channel: registers a bearer on it, removes one from it (or every
      bearer), or neither. */
  datatype Mark = ADDED | DROPPED | UNTOUCHED

  function MarkOf(m: Maps, op: Op, lcid: nat): Mark {
    match op
    case Add(id, _, l) => if l == lcid && id !in m.bearers then ADDED else UNTOUCHED
    case Remove(id) => if id in m.bearers && m.bearers[id].lcid == lcid then DROPPED else UNTOUCHED
    case Reset => DROPPED
    case SetFiveQi(_, _) => UNTOUCHED
  }

  function Marks(ops: seq<Op>, lcid: nat): (ms: seq<Mark>)
    ensures |ms| == |ops|
  {
    if ops == [] then []
    else
      var n := |ops| - 1;
      Marks(ops[..n], lcid) + [MarkOf(Run(ops[..n]), ops[n], lcid)]
  }

  ghost predicate DroppedBetween(ms: seq<Mark>, j: nat, k: nat)
    requires k <= |ms|
  {
    exists d: nat :: j < d < k && ms[d] == DROPPED
  }

  /** Step k is the first to register a bearer on the channel since one was last removed
      from it. */
  ghost predicate FirstSince(ms: seq<Mark>, k: nat) {
    && k < |ms| && ms[k] == ADDED && !DroppedBetween(ms, k, |ms|)
    && (forall j: nat :: j < k && ms[j] == ADDED ==> DroppedBetween(ms, j, k))
  }

  ghost predicate AllDropped(ms: seq<Mark>) {
    forall j: nat :: j < |ms| && ms[j] == ADDED ==> DroppedBetween(ms, j, |ms|)
  }

  datatype Step = At(k: nat) | Nowhere

  /** The step whose bearer the channel leads to. */
  function Holder(ms: seq<Mark>): (h: Step)
    ensures h.At? ==> h.k < |ms|
  {
    if ms == [] then Nowhere
    else
      var n := |ms| - 1;
      var h := Holder(ms[..n]);
      if ms[n] == DROPPED then Nowhere else if h == Nowhere && ms[n] == ADDED then At(n) else h
  }

  lemma DroppedInPrefix(ms: seq<Mark>, n: nat, j: nat, k: nat)
    requires k <= n <= |ms|
    ensures DroppedBetween(ms[..n], j, k) == DroppedBetween(ms, j, k)
  {
    if DroppedBetween(ms, j, k) {
      var d: nat :| j < d < k && ms[d] == DROPPED;
      assert ms[..n][d] == DROPPED;
    }
  }

  lemma DroppedOneMore(ms: seq<Mark>, n: nat, j: nat)
    requires |ms| == n + 1 && j < n
    ensures DroppedBetween(ms, j, n + 1) <==> DroppedBetween(ms[..n], j, n) || ms[n] == DROPPED
  {
    DroppedInPrefix(ms, n, j, n);
    if DroppedBetween(ms, j, n) {
      var d: nat :| j < d < n && ms[d] == DROPPED;
      assert j < d < n + 1;
    }
  }

  lemma FirstInPrefix(ms: seq<Mark>, n: nat, k: nat)
    requires |ms| == n + 1 && k < n && ms[n] != DROPPED
    ensures FirstSince(ms, k) <==> FirstSince(ms[..n], k)
  {
    hide DroppedBetween;
    DroppedOneMore(ms, n, k);
    forall j: nat | j < k
      ensures DroppedBetween(ms, j, k) == DroppedBetween(ms[..n], j, k)
      ensures ms[j] == ms[..n][j]
    {
      DroppedInPrefix(ms, n, j, k);
    }
  }

  lemma AllDroppedNext(ms: seq<Mark>, n: nat)
    requires |ms| == n + 1 && (ms[n] == DROPPED || (AllDropped(ms[..n]) && ms[n] == UNTOUCHED))
    ensures AllDropped(ms)
  {
    hide DroppedBetween;
    forall j: nat | j < n && ms[j] == ADDED
      ensures DroppedBetween(ms, j, n + 1)
    {
      DroppedOneMore(ms, n, j);
      assert ms[..n][j] == ADDED;
    }
  }

  lemma FirstAtEnd(ms: seq<Mark>, n: nat)
    requires |ms| == n + 1 && ms[n] == ADDED
    ensures FirstSince(ms, n) <==> AllDropped(ms[..n])
  {
    forall j: nat | j < n
      ensures DroppedBetween(ms, j, n) == DroppedBetween(ms[..n], j, n) && ms[..n][j] == ms[j]
    {
      DroppedInPrefix(ms, n, j, n);
    }
  }

  lemma FirstIsNotDropped(ms: seq<Mark>, k: nat)
    requires FirstSince(ms, k)
    ensures !AllDropped(ms)
  {
  }

  lemma DroppedEndsAll(ms: seq<Mark>, n: nat, k: nat)
    requires |ms| == n + 1 && ms[n] == DROPPED
    ensures !FirstSince(ms, k)
  {
    if k < n {
      DroppedOneMore(ms, n, k);
    }
  }

  lemma {:induction false} HolderIsFirst(ms: seq<Mark>, k: nat)
    ensures Holder(ms) == At(k) <==> FirstSince(ms, k)
    ensures Holder(ms) == Nowhere <==> AllDropped(ms)
    decreases |ms|
  {
    hide FirstSince, AllDropped;
    if ms == [] {
      NothingYet(k);
      return;
    }
    var n := |ms| - 1;
    var h := Holder(ms[..n]);
    HolderIsFirst(ms[..n], k);
    if ms[n] == DROPPED {
      DroppedEndsAll(ms, n, k);
      AllDroppedNext(ms, n);
    } else {
      var at := if h.At? then h.k else n;
      HolderIsFirst(ms[..n], at);
      HolderContinues(ms, n, at);
      HolderContinues(ms, n, k);
    }
  }

  lemma NothingYet(k: nat)
    ensures !FirstSince([], k) && AllDropped([])
  {
  }

  lemma HolderContinues(ms: seq<Mark>, n: nat, k: nat)
    requires |ms| == n + 1 && ms[n] != DROPPED
    ensures k < n ==> (FirstSince(ms, k) <==> FirstSince(ms[..n], k))
    ensures k == n ==> (FirstSince(ms, n) <==> ms[n] == ADDED && AllDropped(ms[..n]))
    ensures k > n ==> !FirstSince(ms, k)
    ensures FirstSince(ms, k) ==> !AllDropped(ms)
    ensures AllDropped(ms[..n]) && ms[n] == UNTOUCHED ==> AllDropped(ms)
  {
    hide AllDropped, DroppedBetween;
    if k < n {
      FirstInPrefix(ms, n, k);
    } else if k == n && ms[n] == ADDED {
      FirstAtEnd(ms, n);
    }
    if FirstSince(ms, k) {
      FirstIsNotDropped(ms, k);
    }
    if AllDropped(ms[..n]) && ms[n] == UNTOUCHED {
      AllDroppedNext(ms, n);
    }
  }

  lemma IndexStep(m: Maps, op: Op, lcid: nat)
    requires Sound(m)
    ensures var next, mark := Apply(m, op).index, MarkOf(m, op, lcid);
      if mark == DROPPED then lcid !in next
      else if lcid in m.index then lcid in next && next[lcid] == m.index[lcid]
      else if mark == ADDED then op.Add? && lcid in next && next[lcid] == op.id
      else lcid !in next
  {
  }

  ghost predicate Leads(ops: seq<Op>, h: Step, index: map<nat, nat>, lcid: nat) {
    if h.At? then
      h.k < |ops| && ops[h.k].Add? && lcid in index && index[lcid] == ops[h.k].id
    else lcid !in index
  }

  lemma LeadsOn(ops: seq<Op>, n: nat, h: Step, index: map<nat, nat>, lcid: nat)
    requires n <= |ops| && Leads(ops[..n], h, index, lcid)
    ensures Leads(ops, h, index, lcid)
  {
  }

  lemma RunLast(ops: seq<Op>, n: nat, lcid: nat)
    requires |ops| == n + 1
    ensures Run(ops) == Apply(Run(ops[..n]), ops[n])
    ensures Marks(ops, lcid)[..n] == Marks(ops[..n], lcid)
    ensures Marks(ops, lcid)[n] == MarkOf(Run(ops[..n]), ops[n], lcid)
  {
  }

  lemma HolderLast(ms: seq<Mark>, n: nat)
    requires |ms| == n + 1
    ensures Holder(ms) == if ms[n] == DROPPED then Nowhere
                          else if Holder(ms[..n]) == Nowhere && ms[n] == ADDED then At(n)
                          else Holder(ms[..n])
  {
  }

  /** The reverse entry of a channel is the identity the holding step registered. */
  lemma {:induction false} IndexIsHolder(ops: seq<Op>, lcid: nat)
    ensures Leads(ops, Holder(Marks(ops, lcid)), Run(ops).index, lcid)
    decreases |ops|
  {
    if ops != [] {
      hide Apply, MarkOf, Sound, Run, Marks, Holder;
      var n := |ops| - 1;
      IndexIsHolder(ops[..n], lcid);
      RunLast(ops, n, lcid);
      HolderLast(Marks(ops, lcid), n);
      LeadsOn(ops, n, Holder(Marks(ops[..n], lcid)), Run(ops[..n]).index, lcid);
      RunSound(ops[..n]);
      IndexStep(Run(ops[..n]), ops[n], lcid);
    }
  }

  /** A channel leads to a bearer exactly when some step registered one there and none has
      been removed from it since, and then to the first such. */
  lemma LcidLeadsToFirst(ops: seq<Op>, lcid: nat, id: nat)
    ensures lcid in Run(ops).index && Run(ops).index[lcid] == id
       <==> exists k: nat :: k < |ops| && FirstSince(Marks(ops, lcid), k) && ops[k].Add? && ops[k].id == id
  {
    hide Run, Marks, Holder, FirstSince;
    var ms := Marks(ops, lcid);
    IndexIsHolder(ops, lcid);
    forall k: nat
      ensures Holder(ms) == At(k) <==> FirstSince(ms, k)
    {
      HolderIsFirst(ms, k);
    }
  }

  // ----- what a lookup answers -----

  /** What a step asks for an identity, whatever the state: its registration, its removal (or
      that of every bearer), or neither. */
  function IdMark(op: Op, id: nat): Mark {
    match op
    case Add(i, _, _) => if i == id then ADDED else UNTOUCHED
    case Remove(i) => if i == id then DROPPED else UNTOUCHED
    case Reset => DROPPED
    case SetFiveQi(_, _) => UNTOUCHED
  }

  function IdMarks(ops: seq<Op>, id: nat): (ms: seq<Mark>)
    ensures |ms| == |ops|
  {
    seq(|ops|, i requires 0 <= i < |ops| => IdMark(ops[i], id))
  }

  ghost predicate NotSetAfter(ops: seq<Op>, id: nat, k: nat) {
    forall i :: k < i < |ops| && ops[i].SetFiveQi? ==> ops[i].id != id
  }

  /** q is what the last step after k to set the identity's 5QI set it to, or 0 without one. */
  ghost predicate LastQi(ops: seq<Op>, id: nat, k: nat, q: nat) {
    || (exists j: nat :: k < j < |ops| && ops[j] == SetFiveQi(id, q) && NotSetAfter(ops, id, j))
    || (q == 0 && NotSetAfter(ops, id, k))
  }

  function QiSince(ops: seq<Op>, id: nat, k: nat): nat {
    if |ops| <= k + 1 then 0
    else
      var last := ops[|ops| - 1];
      if last.SetFiveQi? && last.id == id then last.fiveQi else QiSince(ops[..|ops| - 1], id, k)
  }

  lemma {:induction false} QiSinceIs(ops: seq<Op>, id: nat, k: nat, q: nat)
    ensures LastQi(ops, id, k, q) <==> q == QiSince(ops, id, k)
    decreases |ops|
  {
    hide LastQi, QiSince;
    if |ops| <= k + 1 {
      NoQiYet(ops, id, k, q);
    } else {
      var n := |ops| - 1;
      QiSinceIs(ops[..n], id, k, q);
      QiNext(ops, n, id, k, q);
    }
  }

  lemma NoQiYet(ops: seq<Op>, id: nat, k: nat, q: nat)
    requires |ops| <= k + 1
    ensures QiSince(ops, id, k) == 0 && (LastQi(ops, id, k, q) <==> q == 0)
  {
  }

  lemma QiNext(ops: seq<Op>, n: nat, id: nat, k: nat, q: nat)
    requires |ops| == n + 1 && k < n
    ensures var sets := ops[n].SetFiveQi? && ops[n].id == id;
            && QiSince(ops, id, k) == (if sets then ops[n].fiveQi else QiSince(ops[..n], id, k))
            && (LastQi(ops, id, k, q) <==> if sets then q == ops[n].fiveQi else LastQi(ops[..n], id, k, q))
  {
    hide NotSetAfter;
    if ops[n].SetFiveQi? && ops[n].id == id {
      SetAtEnd(ops, n, id);
    } else {
      forall j: nat
        ensures NotSetAfter(ops, id, j) <==> NotSetAfter(ops[..n], id, j)
      {
        NotSetEarlier(ops, n, id, j);
      }
      QiEarlier(ops, n, id, k, q);
    }
  }

  lemma SetAtEnd(ops: seq<Op>, n: nat, id: nat)
    requires |ops| == n + 1 && ops[n].SetFiveQi? && ops[n].id == id
    ensures forall j: nat :: NotSetAfter(ops, id, j) <==> j >= n
  {
  }

  lemma NotSetEarlier(ops: seq<Op>, n: nat, id: nat, j: nat)
    requires |ops| == n + 1 && !(ops[n].SetFiveQi? && ops[n].id == id)
    ensures NotSetAfter(ops, id, j) <==> NotSetAfter(ops[..n], id, j)
  {
    var front := ops[..n];
    assert forall i: nat :: i < n ==> front[i] == ops[i];
  }

  lemma QiEarlier(ops: seq<Op>, n: nat, id: nat, k: nat, q: nat)
    requires |ops| == n + 1 && k < n && !(ops[n].SetFiveQi? && ops[n].id == id)
    requires forall j: nat :: NotSetAfter(ops, id, j) <==> NotSetAfter(ops[..n], id, j)
    ensures LastQi(ops, id, k, q) <==> LastQi(ops[..n], id, k, q)
  {
    hide NotSetAfter;
    if j: nat :| k < j < n + 1 && ops[j] == SetFiveQi(id, q) && NotSetAfter(ops, id, j) {
      assert ops[..n][j] == SetFiveQi(id, q);
    }
  }

  /** The bearer of an identity is the one its holding step registered, with the 5QI set last. */
  ghost predicate Registered(ops: seq<Op>, h: Step, bearers: map<nat, RadioBearer>, id: nat) {
    if h.At? then
      && h.k < |ops| && ops[h.k].Add? && ops[h.k].id == id && id in bearers
      && bearers[id] == RadioBearer(ops[h.k].rat, ops[h.k].lcid, id, QiSince(ops, id, h.k))
    else id !in bearers
  }

  lemma IdMarksLast(ops: seq<Op>, n: nat, id: nat)
    requires |ops| == n + 1
    ensures IdMarks(ops, id)[..n] == IdMarks(ops[..n], id) && IdMarks(ops, id)[n] == IdMark(ops[n], id)
  {
  }

  lemma RegisteredNext(ops: seq<Op>, n: nat, h: Step, m: Maps, id: nat)
    requires |ops| == n + 1 && Registered(ops[..n], h, m.bearers, id)
    ensures var mark := IdMark(ops[n], id);
            Registered(ops, if mark == DROPPED then Nowhere else if h == Nowhere && mark == ADDED then At(n) else h,
                       Apply(m, ops[n]).bearers, id)
  {
    if h.At? {
      assert ops[..n][h.k] == ops[h.k];
    }
  }

  lemma {:induction false} BearerIsRegistered(ops: seq<Op>, id: nat)
    ensures Registered(ops, Holder(IdMarks(ops, id)), Run(ops).bearers, id)
    decreases |ops|
  {
    if ops != [] {
      hide Apply, IdMark, IdMarks, Run, Holder, Registered;
      var n := |ops| - 1;
      BearerIsRegistered(ops[..n], id);
      RunLast(ops, n, 0);
      IdMarksLast(ops, n, id);
      HolderLast(IdMarks(ops, id), n);
      RegisteredNext(ops, n, Holder(IdMarks(ops[..n], id)), Run(ops[..n]), id);
    }
  }

  /** After any run, the bearer of an identity is what the first of its registrations since its
      last removal says, with the 5QI set last since; without one it is the invalid bearer. */
  lemma LookupById(ops: seq<Op>, id: nat, k: nat, q: nat)
    ensures FirstSince(IdMarks(ops, id), k) && LastQi(ops, id, k, q) ==>
              ops[k].Add? && RadioBearerOf(Run(ops), id) == RadioBearer(ops[k].rat, ops[k].lcid, id, q)
    ensures AllDropped(IdMarks(ops, id)) ==>
              id !in Run(ops).bearers && RadioBearerOf(Run(ops), id) == RadioBearer(NULLTYPE, 0, 0, 0)
  {
    hide Run, IdMarks, Holder, FirstSince, AllDropped, LastQi, QiSince;
    BearerIsRegistered(ops, id);
    HolderIsFirst(IdMarks(ops, id), k);
    QiSinceIs(ops, id, k, q);
  }

  /** The step a channel leads to registered its bearer on that channel, and still holds its
      identity. */
  ghost predicate Holds(ops: seq<Op>, h: Step, lcid: nat) {
    h.At? ==> h.k < |ops| && ops[h.k].Add? && ops[h.k].lcid == lcid && Holder(IdMarks(ops, ops[h.k].id)) == h
  }

  lemma {:induction false} ChannelHolds(ops: seq<Op>, lcid: nat)
    ensures Holds(ops, Holder(Marks(ops, lcid)), lcid)
    decreases |ops|
  {
    if ops != [] {
      hide Apply, Run, Marks, Holder, Holds, IdMarks;
      var n := |ops| - 1;
      ChannelHolds(ops[..n], lcid);
      RunLast(ops, n, lcid);
      HolderLast(Marks(ops, lcid), n);
      HoldsNext(ops, n, Holder(Marks(ops[..n], lcid)), lcid);
    } else {
      assert Holder(Marks([], lcid)) == Nowhere;
    }
  }

  lemma HoldsNext(ops: seq<Op>, n: nat, h: Step, lcid: nat)
    requires |ops| == n + 1 && Holds(ops[..n], h, lcid)
    ensures var mark := MarkOf(Run(ops[..n]), ops[n], lcid);
            Holds(ops, if mark == DROPPED then Nowhere else if h == Nowhere && mark == ADDED then At(n) else h, lcid)
  {
    hide Run, Holder, IdMarks;
    var mark := MarkOf(Run(ops[..n]), ops[n], lcid);
    if mark != DROPPED && (h.At? || mark == ADDED) {
      var id := if h.At? then ops[h.k].id else ops[n].id;
      BearerIsRegistered(ops[..n], id);
      IdMarksLast(ops, n, id);
      HolderLast(IdMarks(ops, id), n);
    }
  }

  /** After any run, a channel leads to the bearer of the first registration on it since a bearer
      was last removed from it, as that step registered it and with the 5QI set last since;
      without one it leads to the invalid bearer. */
  lemma LookupByChannel(ops: seq<Op>, lcid: nat, k: nat, q: nat)
    ensures Sound(Run(ops))
    ensures FirstSince(Marks(ops, lcid), k) ==>
              && ops[k].Add? && ops[k].lcid == lcid
              && (LastQi(ops, ops[k].id, k, q) ==>
                    LcidBearer(Run(ops), lcid) == RadioBearer(ops[k].rat, lcid, ops[k].id, q))
    ensures AllDropped(Marks(ops, lcid)) ==> LcidBearer(Run(ops), lcid) == RadioBearer(NULLTYPE, 0, 0, 0)
  {
    hide Run, Marks, IdMarks, Holder, FirstSince, AllDropped, LastQi, QiSince, Sound;
    RunSound(ops);
    IndexIsHolder(ops, lcid);
    ChannelHolds(ops, lcid);
    HolderIsFirst(Marks(ops, lcid), k);
    if FirstSince(Marks(ops, lcid), k) {
      BearerIsRegistered(ops, ops[k].id);
      QiSinceIs(ops, ops[k].id, k, q);
    }
  }

  /** One of the two is always the case. */
  lemma FirstOrNone(ms: seq<Mark>)
    ensures AllDropped(ms) <==> forall k: nat :: !FirstSince(ms, k)
  {
    hide AllDropped, FirstSince, Holder;
    forall k: nat {
      HolderIsFirst(ms, k);
    }
    if Holder(ms).At? {
      HolderIsFirst(ms, Holder(ms).k);
    }
    HolderIsFirst(ms, 0);
  }

  /** A step counts for a channel as a registration if it registers an identity on it that is not
      held, and as a removal if it removes the holder of an identity registered on it. */
  lemma MarkMeans(ops: seq<Op>, k: nat, lcid: nat)
    requires k < |ops|
    ensures Marks(ops, lcid)[k] == ADDED <==>
              ops[k].Add? && ops[k].lcid == lcid && AllDropped(IdMarks(ops[..k], ops[k].id))
    ensures Marks(ops, lcid)[k] == DROPPED <==>
              || ops[k].Reset?
              || (ops[k].Remove? && exists j: nat :: FirstSince(IdMarks(ops[..k], ops[k].id), j) && ops[j].lcid == lcid)
  {
    hide Run, Marks, IdMarks, Holder, FirstSince, AllDropped;
    MarksAt(ops, k, lcid);
    if ops[k].Add? || ops[k].Remove? {
      var front, id := ops[..k], ops[k].id;
      BearerIsRegistered(front, id);
      HolderIsFirst(IdMarks(front, id), 0);
      forall j: nat
        ensures FirstSince(IdMarks(front, id), j) ==> Holder(IdMarks(front, id)) == At(j)
      {
        HolderIsFirst(IdMarks(front, id), j);
      }
      var h := Holder(IdMarks(front, id));
      if h.At? {
        HolderIsFirst(IdMarks(front, id), h.k);
        assert front[h.k] == ops[h.k];
      }
    }
  }

  lemma {:induction false} MarksAt(ops: seq<Op>, k: nat, lcid: nat)
    requires k < |ops|
    ensures Marks(ops, lcid)[k] == MarkOf(Run(ops[..k]), ops[k], lcid)
    decreases |ops|
  {
    hide Run, Marks, MarkOf;
    var n := |ops| - 1;
    RunLast(ops, n, lcid);
    if k < n {
      MarksAt(ops[..n], k, lcid);
      assert ops[..n][..k] == ops[..k];
      assert Marks(ops, lcid)[k] == Marks(ops[..n], lcid)[k];
    }
  }

  /** Whose bearer an operation is about. */
  predicate About(op: Op, id: nat) {
    match op
    case Add(i, _, _) => i == id
    case Remove(i) => i == id
    case Reset => true
    case SetFiveQi(i, _) => i == id
  }

  /** A bearer's registration depends on the operations about it alone. */
  lemma {:induction false} OthersDoNotMatter(ops: seq<Op>, id: nat)
    ensures RadioBearerOf(Run(ops), id) == RadioBearerOf(Run(Only(ops, id)), id)
    ensures id in Run(ops).bearers <==> id in Run(Only(ops, id)).bearers
    decreases |ops|
  {
    if ops != [] {
      var n := |ops| - 1;
      var before := Only(ops[..n], id);
      OthersDoNotMatter(ops[..n], id);
      assert (before + [ops[n]])[..|before|] == before;
    }
  }

  function Only(ops: seq<Op>, id: nat): seq<Op> {
    if ops == [] then []
    else
      var before, op := Only(ops[..|ops| - 1], id), ops[|ops| - 1];
      if About(op, id) then before + [op] else before
  }

  // ----- when the two maps are each other's inverse -----

  ghost predicate Distinct(m: Maps) {
    forall a, b :: a in m.bearers && b in m.bearers && m.bearers[a].lcid == m.bearers[b].lcid ==> a == b
  }

  /** Each live bearer is the one its channel leads to. */
  ghost predicate Inverse(m: Maps) {
    forall id :: id in m.bearers ==> m.bearers[id].lcid in m.index && m.index[m.bearers[id].lcid] == id
  }

  /** At every moment of a run. */
  ghost predicate AlwaysDistinct(ops: seq<Op>) {
    forall n: nat :: n <= |ops| ==> Distinct(Run(ops[..n]))
  }

  ghost predicate AlwaysInverse(ops: seq<Op>) {
    forall n: nat :: n <= |ops| ==> Inverse(Run(ops[..n]))
  }

  lemma ApplyInverse(m: Maps, op: Op)
    requires Sound(m) && Inverse(m) && Distinct(Apply(m, op))
    ensures Inverse(Apply(m, op))
  {
    var next := Apply(m, op);
    forall id | id in next.bearers
      ensures next.bearers[id].lcid in next.index && next.index[next.bearers[id].lcid] == id
    {
      if op.Add? && id == op.id && id !in m.bearers && op.lcid in m.index {
        var other := m.index[op.lcid];
        assert next.bearers[other].lcid == op.lcid;
      }
    }
  }

  lemma {:induction false} InverseAlong(ops: seq<Op>)
    requires AlwaysDistinct(ops)
    ensures Inverse(Run(ops))
    decreases |ops|
  {
    hide Distinct, Inverse, Sound, Apply;
    if ops == [] {
      EmptyInverse();
    } else {
      var n := |ops| - 1;
      forall k: nat | k <= n
        ensures Distinct(Run(ops[..n][..k]))
      {
        assert ops[..n][..k] == ops[..k];
      }
      InverseAlong(ops[..n]);
      RunSound(ops[..n]);
      assert ops[..n + 1] == ops;
      assert Distinct(Run(ops[..n + 1]));
      ApplyInverse(Run(ops[..n]), ops[n]);
    }
  }

  lemma EmptyInverse()
    ensures Inverse(EMPTY)
  {
  }

  lemma InverseIsDistinct(m: Maps)
    requires Inverse(m)
    ensures Distinct(m)
  {
    forall a, b | a in m.bearers && b in m.bearers && m.bearers[a].lcid == m.bearers[b].lcid
      ensures a == b
    {
      assert m.index[m.bearers[a].lcid] == a;
      assert m.index[m.bearers[b].lcid] == b;
    }
  }

  /** The maps are each other's inverse all along a run exactly when no two live bearers
      ever share a channel in it. */
  lemma InverseExactly(ops: seq<Op>)
    ensures AlwaysInverse(ops) <==> AlwaysDistinct(ops)
  {
    hide Distinct, Inverse, Run;
    if AlwaysDistinct(ops) {
      forall n: nat | n <= |ops|
        ensures Inverse(Run(ops[..n]))
      {
        forall k: nat | k <= n
          ensures Distinct(Run(ops[..n][..k]))
        {
          assert ops[..n][..k] == ops[..k];
        }
        InverseAlong(ops[..n]);
      }
    }
    if AlwaysInverse(ops) {
      forall n: nat | n <= |ops|
        ensures Distinct(Run(ops[..n]))
      {
        InverseIsDistinct(Run(ops[..n]));
      }
    }
  }

  /** Two bearers on one channel, as on two access technologies: removing the first leaves
      the second alive but not to be found by its channel. */
  lemma SharedChannelIsLost()
    ensures var m := Run([Add(1, LTE, 3), Add(2, NR, 3), Remove(1)]);
      2 in m.bearers && m.bearers[2].lcid == 3 && 3 !in m.index
  {
    var a, b, c := Add(1, LTE, 3), Add(2, NR, 3), Remove(1);
    assert [a, b, c][..2] == [a, b] && [a, b][..1] == [a] && [a][..0] == [];
    assert Run([a]) == Apply(EMPTY, a);
    assert Run([a, b]) == Apply(Run([a]), b);
    assert Run([a, b, c]) == Apply(Run([a, b]), c);
  }

  // ----- one user -----

  class UeBearerManagerImpl {
    var bearers: map<nat, RadioBearer>
    var lcidToEpsBearerId: map<nat, nat>

    function Now(): Maps
      reads this
    {
      Maps(bearers, lcidToEpsBearerId)
    }

    constructor ()
      ensures Now() == EMPTY
    {
      bearers, lcidToEpsBearerId := map[], map[];
    }

    method AddEpsBearer(epsBearerId: nat, rat: Rat, lcid: nat) returns (ok: bool)
      modifies this
      ensures Now() == Apply(old(Now()), Add(epsBearerId, rat, lcid))
      ensures ok == (epsBearerId !in old(bearers))
    {
      if epsBearerId in bearers {
        return false;
      }
      bearers := bearers[epsBearerId := RadioBearer(rat, lcid, epsBearerId, 0)];
      if lcid !in lcidToEpsBearerId {
        lcidToEpsBearerId := lcidToEpsBearerId[lcid := epsBearerId];
      }
      ok := true;
    }

    method RemoveEpsBearer(epsBearerId: nat) returns (ok: bool)
      modifies this
      ensures Now() == Apply(old(Now()), Remove(epsBearerId))
      ensures ok == (epsBearerId in old(bearers))
    {
      if epsBearerId !in bearers {
        return false;
      }
      var lcid := bearers[epsBearerId].lcid;
      bearers := bearers - {epsBearerId};
      lcidToEpsBearerId := lcidToEpsBearerId - {lcid};
      ok := true;
    }

    method ResetAll()
      modifies this
      ensures Now() == EMPTY
    {
      lcidToEpsBearerId := map[];
      bearers := map[];
    }

    method HasActiveRadioBearer(epsBearerId: nat) returns (active: bool)
      ensures active == (epsBearerId in bearers)
    {
      active := epsBearerId in bearers;
    }

    method GetRadioBearer(epsBearerId: nat) returns (rb: RadioBearer)
      ensures rb == RadioBearerOf(Now(), epsBearerId)
    {
      rb := if epsBearerId in bearers then bearers[epsBearerId] else INVALID_RB;
    }

    method GetEpsBearerIdForLcid(lcid: nat) returns (rb: RadioBearer)
      requires Sound(Now())
      ensures rb == LcidBearer(Now(), lcid)
      ensures if lcid in lcidToEpsBearerId then rb.lcid == lcid && rb.epsBearerId == lcidToEpsBearerId[lcid]
              else rb == RadioBearer(NULLTYPE, 0, 0, 0)
    {
      if lcid in lcidToEpsBearerId {
        rb := bearers[lcidToEpsBearerId[lcid]];
      } else {
        rb := INVALID_RB;
      }
    }

    method SetFiveQiOf(epsBearerId: nat, fiveQi: nat) returns (ok: bool)
      modifies this
      ensures Now() == Apply(old(Now()), SetFiveQi(epsBearerId, fiveQi))
      ensures ok == (epsBearerId in old(bearers))
    {
      if epsBearerId !in bearers {
        return false;
      }
      bearers := bearers[epsBearerId := bearers[epsBearerId].(fiveQi := fiveQi)];
      ok := true;
    }
  }

  // ----- the base station -----

  type Users = map<nat, Maps>

  datatype UserOp = UserOp(rnti: nat, op: Op) | RemUser(rnti: nat)

  function UserOf(users: Users, rnti: nat): Maps {
    if rnti in users then users[rnti] else EMPTY
  }

  /** Only an addition brings a user in. The station has no reset of one user's bearers. */
  function ApplyUser(users: Users, u: UserOp): Users {
    match u
    case UserOp(rnti, op) =>
      if op.Add? || rnti in users then users[rnti := Apply(UserOf(users, rnti), op)] else users
    case RemUser(rnti) => users - {rnti}
  }

  function RunUsers(ops: seq<UserOp>): Users {
    if ops == [] then map[] else ApplyUser(RunUsers(ops[..|ops| - 1]), ops[|ops| - 1])
  }

  /** What one user's manager is asked to do; removing the user empties it. */
  function Project(ops: seq<UserOp>, rnti: nat): seq<Op> {
    if ops == [] then []
    else
      var before, u := Project(ops[..|ops| - 1], rnti), ops[|ops| - 1];
      if u.rnti != rnti then before
      else before + [if u.RemUser? then Reset else u.op]
  }

  lemma ApplyOne(users: Users, u: UserOp, rnti: nat)
    ensures UserOf(ApplyUser(users, u), rnti)
         == if u.rnti != rnti then UserOf(users, rnti)
            else Apply(UserOf(users, rnti), if u.RemUser? then Reset else u.op)
  {
  }

  /** A user's maps are those of a manager of its own that sees only its operations: no
      operation on one user ever changes what another's lookups find. */
  lemma {:induction false} UsersAreSeparate(ops: seq<UserOp>, rnti: nat)
    ensures UserOf(RunUsers(ops), rnti) == Run(Project(ops, rnti))
    decreases |ops|
  {
    hide Apply, UserOf, ApplyUser;
    if ops == [] {
      NoUsers(rnti);
    } else {
      var n := |ops| - 1;
      var before := Project(ops[..n], rnti);
      UsersAreSeparate(ops[..n], rnti);
      ApplyOne(RunUsers(ops[..n]), ops[n], rnti);
      if ops[n].rnti == rnti {
        var op := if ops[n].RemUser? then Reset else ops[n].op;
        assert (before + [op])[..|before|] == before;
      }
    }
  }

  lemma NoUsers(rnti: nat)
    ensures UserOf(map[], rnti) == EMPTY
  {
  }

  /** And every user's reverse index stays sound. */
  lemma UsersAreSound(ops: seq<UserOp>, rnti: nat)
    ensures Sound(UserOf(RunUsers(ops), rnti))
  {
    hide *;
    UsersAreSeparate(ops, rnti);
    RunSound(Project(ops, rnti));
  }

  lemma AddingUser(users: Users, rnti: nat, op: Op)
    requires op.Add?
    ensures users[rnti := UserOf(users, rnti)][rnti := Apply(UserOf(users, rnti), op)]
         == ApplyUser(users, UserOp(rnti, op))
  {
    hide Apply, UserOf;
  }

  class EnbBearerManager {
    var usersMap: map<nat, UeBearerManagerImpl>

    /** Each user has a manager of its own. */
    ghost predicate Valid()
      reads this
    {
      forall a, b :: a in usersMap && b in usersMap && usersMap[a] == usersMap[b] ==> a == b
    }

    ghost function Now(): Users
      reads this, usersMap.Values
    {
      map r | r in usersMap :: usersMap[r].Now()
    }

    constructor ()
      ensures Valid() && Now() == map[] && usersMap == map[]
    {
      usersMap := map[];
    }

    method AddEpsBearer(rnti: nat, epsBearerId: nat, rat: Rat, lcid: nat)
      requires Valid()
      modifies this, usersMap.Values
      ensures Valid() && Now() == ApplyUser(old(Now()), UserOp(rnti, Add(epsBearerId, rat, lcid)))
      ensures fresh(usersMap.Values - old(usersMap.Values))
    {
      hide *;
      ghost var op := Add(epsBearerId, rat, lcid);
      AddingUser(old(Now()), rnti, op);
      Emplace(rnti);
      AddTo(rnti, epsBearerId, rat, lcid);
    }

    method AddTo(rnti: nat, epsBearerId: nat, rat: Rat, lcid: nat)
      requires Valid() && rnti in usersMap
      modifies usersMap.Values
      ensures Now() == old(Now())[rnti := Apply(old(Now())[rnti], Add(epsBearerId, rat, lcid))]
    {
      hide Apply;
      var _ := usersMap[rnti].AddEpsBearer(epsBearerId, rat, lcid);
    }

    /** A user not seen before gets an empty manager. */
    method Emplace(rnti: nat)
      requires Valid()
      modifies `usersMap
      ensures Valid() && rnti in usersMap && Now() == old(Now())[rnti := UserOf(old(Now()), rnti)]
      ensures fresh(usersMap.Values - old(usersMap.Values))
    {
      if rnti !in usersMap {
        var empty := new UeBearerManagerImpl();
        usersMap := usersMap[rnti := empty];
      }
    }

    method RemoveEpsBearer(rnti: nat, epsBearerId: nat)
      requires Valid()
      modifies usersMap.Values
      ensures Valid() && Now() == ApplyUser(old(Now()), UserOp(rnti, Remove(epsBearerId)))
    {
      if rnti !in usersMap {
        return;
      }
      var _ := usersMap[rnti].RemoveEpsBearer(epsBearerId);
    }

    method RemoveUser(rnti: nat)
      requires Valid()
      modifies this
      ensures Valid() && Now() == ApplyUser(old(Now()), RemUser(rnti))
      ensures usersMap.Values <= old(usersMap.Values)
    {
      if rnti !in usersMap {
        return;
      }
      usersMap := usersMap - {rnti};
    }

    method SetFiveQiOf(rnti: nat, epsBearerId: nat, fiveQi: nat) returns (ok: bool)
      requires Valid()
      modifies usersMap.Values
      ensures Valid() && Now() == ApplyUser(old(Now()), UserOp(rnti, SetFiveQi(epsBearerId, fiveQi)))
      ensures ok == (epsBearerId in UserOf(old(Now()), rnti).bearers)
    {
      if rnti !in usersMap {
        return false;
      }
      ok := usersMap[rnti].SetFiveQiOf(epsBearerId, fiveQi);
    }

    method HasActiveRadioBearer(rnti: nat, epsBearerId: nat) returns (active: bool)
      ensures active == (epsBearerId in UserOf(Now(), rnti).bearers)
    {
      if rnti !in usersMap {
        return false;
      }
      active := usersMap[rnti].HasActiveRadioBearer(epsBearerId);
    }

    method GetRadioBearer(rnti: nat, epsBearerId: nat) returns (rb: RadioBearer)
      ensures rb == RadioBearerOf(UserOf(Now(), rnti), epsBearerId)
    {
      if rnti !in usersMap {
        return INVALID_RB;
      }
      rb := usersMap[rnti].GetRadioBearer(epsBearerId);
    }

    method GetLcidBearer(rnti: nat, lcid: nat) returns (rb: RadioBearer)
      requires Sound(UserOf(Now(), rnti))
      ensures rb == LcidBearer(UserOf(Now(), rnti), lcid)
    {
      if rnti !in usersMap {
        return INVALID_RB;
      }
      rb := usersMap[rnti].GetEpsBearerIdForLcid(lcid);
    }
  }

  /** A base station put through any run of its operations: each user's maps are what its
      own operations make of them. */
  method Operate(ops: seq<UserOp>) returns (station: EnbBearerManager)
    requires forall i :: 0 <= i < |ops| && ops[i].UserOp? ==> !ops[i].op.Reset?
    ensures station.Valid() && station.Now() == RunUsers(ops)
    ensures forall rnti :: UserOf(station.Now(), rnti) == Run(Project(ops, rnti))
  {
    hide EnbBearerManager.Now, EnbBearerManager.Valid, ApplyUser, Run, Project, UserOf;
    station := new EnbBearerManager();
    assert ops[..0] == [];
    for i := 0 to |ops|
      invariant station.Valid() && fresh(station) && fresh(station.usersMap.Values)
      invariant station.Now() == RunUsers(ops[..i])
    {
      assert ops[..i + 1][..i] == ops[..i];
      Operation(station, ops[i]);
    }
    assert ops[..|ops|] == ops;
    forall rnti
      ensures UserOf(station.Now(), rnti) == Run(Project(ops, rnti))
    {
      UsersAreSeparate(ops, rnti);
    }
  }

  method Operation(station: EnbBearerManager, u: UserOp)
    requires station.Valid() && (u.UserOp? ==> !u.op.Reset?)
    modifies station, station.usersMap.Values
    ensures station.Valid() && station.Now() == ApplyUser(old(station.Now()), u)
    ensures fresh(station.usersMap.Values - old(station.usersMap.Values))
  {
    hide EnbBearerManager.Now, EnbBearerManager.Valid, ApplyUser;
    match u
    case UserOp(rnti, Add(id, rat, lcid)) => station.AddEpsBearer(rnti, id, rat, lcid);
    case UserOp(rnti, Remove(id)) => station.RemoveEpsBearer(rnti, id);
    case UserOp(rnti, SetFiveQi(id, fiveQi)) => var ok := station.SetFiveQiOf(rnti, id, fiveQi);
    case RemUser(rnti) => station.RemoveUser(rnti);
  }
}
