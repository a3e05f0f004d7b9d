/** The queue of a client connection (fw/http.c:3570-3701, 4927-4949): requests in the order they
    came, whose responses get ready on any CPU in any order and leave in the order of the requests.
    Every critical section, and every response sent, is one step; the steps of the CPUs interleave
    in any way. */
module SeqQueue {
  import opened Basics

  type Req = nat
  type Cpu = nat

  /** Where a CPU stands in tfw_http_resp_fwd(). */
  datatype Place =
    | Idle
    /** holds seq_qlock and has a response for the request */
    | Marking(req: Req)
    /** holds seq_qlock and has cut the queue off; waits for ret_qlock */
    | Waiting(queue: seq<Req>)
    /** holds both locks */
    | Passing(queue: seq<Req>)
    /** holds ret_qlock and sends the queue */
    | Sending(queue: seq<Req>)

  /** The connection, with a record of the past: all requests that arrived, those refused on
      arrival, those whose response was sent, those that left the queues (sent or not), and those
      that the end of the connection threw out. */
  datatype Conn = Conn(
    queue: seq<Req>, ready: set<Req>, nip: set<Req>, closed: bool,
    seqLock: Option<Cpu>, retLock: Option<Cpu>, places: map<Cpu, Place>,
    arrived: seq<Req>, refused: set<Req>, sent: seq<Req>, gone: seq<Req>, thrown: seq<Req>)
  {
    function At(c: Cpu): Place {
      if c in places then places[c] else Idle
    }

    function Move(c: Cpu, p: Place): (r: Conn)
      ensures forall d: Cpu :: r.At(d) == if d == c then p else At(d)
    {
      this.(places := places[c := p])
    }
  }

  datatype Event =
    /** A request arrives (fw/http.c:4933-4949), or one that is answered with an error at once
        (fw/http.c:4537-4544). */
    | Arrive(req: Req, nonIdempotent: bool)
    | Refuse(req: Req)
    | Lock(cpu: Cpu, req: Req)
    | Mark(cpu: Cpu)
    | TakeRet(cpu: Cpu)
    | ReleaseSeq(cpu: Cpu)
    | Send(cpu: Cpu, ok: bool)
    | Done(cpu: Cpu)
    | Drop

  /** How many requests at the head of the queue have their response ready (fw/http.c:3638-3646). */
  function ReadyHead(q: seq<Req>, ready: set<Req>): (n: nat)
    ensures n <= |q| && (forall i :: 0 <= i < n ==> q[i] in ready) && (n < |q| ==> q[n] !in ready)
  {
    if q == [] || q[0] !in ready then 0 else 1 + ReadyHead(q[1..], ready)
  }

  function Start(): Conn {
    Conn([], {}, {}, false, None, None, map[], [], {}, [], [], [])
  }

  /** What may happen. A request arrives once and on an open connection; a request gets one
      response; nothing can be sent on a closed connection. */
  predicate Enabled(s: Conn, e: Event) {
    match e
    case Arrive(r, _) => s.seqLock.None? && !s.closed && r !in s.arrived
    case Refuse(r) => s.seqLock.None? && !s.closed && r !in s.arrived
    case Lock(c, r) => s.seqLock.None? && s.At(c).Idle? && r in s.arrived && r !in s.ready
    case Mark(c) => s.At(c).Marking?
    case TakeRet(c) => s.At(c).Waiting? && s.retLock.None?
    case ReleaseSeq(c) => s.At(c).Passing?
    case Send(c, ok) => s.At(c).Sending? && s.At(c).queue != [] && (ok ==> !s.closed)
    case Done(c) => s.At(c).Sending? && s.At(c).queue == []
    case Drop => s.seqLock.None?
  }

  /** Marking the response ready and cutting the ready requests off (fw/http.c:3624-3651). */
  function Marked(s: Conn, c: Cpu, r: Req): Conn {
    var ready := s.ready + {r};
    var n := ReadyHead(s.queue, ready);
    if s.queue == [] then s.(closed := true, seqLock := None).Move(c, Idle)
    else if n == 0 then s.(ready := ready, seqLock := None).Move(c, Idle)
    else s.(ready := ready, queue := s.queue[n..]).Move(c, Waiting(s.queue[..n]))
  }

  function Next(s: Conn, e: Event): Conn
    requires Enabled(s, e)
  {
    match e
    case Arrive(r, nonIdempotent) =>
      // the request before is idempotent from now on
      var nip := if s.queue == [] then s.nip else s.nip - {s.queue[|s.queue| - 1]};
      s.(nip := if nonIdempotent then nip + {r} else nip, queue := s.queue + [r], arrived := s.arrived + [r])
    case Refuse(r) =>
      s.(queue := s.queue + [r], arrived := s.arrived + [r], refused := s.refused + {r})
    case Lock(c, r) =>
      s.(seqLock := Some(c)).Move(c, Marking(r))
    case Mark(c) =>
      Marked(s, c, s.At(c).req)
    case TakeRet(c) =>
      s.(retLock := Some(c)).Move(c, Passing(s.At(c).queue))
    case ReleaseSeq(c) =>
      s.(seqLock := None).Move(c, Sending(s.At(c).queue))
    case Send(c, ok) =>
      var q := s.At(c).queue;
      if ok then s.(sent := s.sent + [q[0]], gone := s.gone + [q[0]]).Move(c, Sending(q[1..]))
      else s.(closed := true, gone := s.gone + q).Move(c, Sending([]))
    case Done(c) =>
      s.(retLock := None).Move(c, Idle)
    case Drop =>
      s.(closed := true, thrown := s.thrown + s.queue, queue := [])
  }

  /** A run: every state follows from the one before. */
  ghost predicate Run(states: seq<Conn>, events: seq<Event>) {
    && |states| == |events| + 1 && states[0] == Start()
    && forall i :: 0 <= i < |events| ==> Enabled(states[i], events[i]) && states[i + 1] == Next(states[i], events[i])
  }

  // ----- the invariant

  ghost predicate Locks(s: Conn) {
    forall c: Cpu :: (s.seqLock == Some(c) <==> s.At(c).Marking? || s.At(c).Waiting? || s.At(c).Passing?)
                  && (s.retLock == Some(c) <==> s.At(c).Passing? || s.At(c).Sending?)
  }

  /** The queue that the holder of ret_qlock sends. */
  ghost function Leaving(s: Conn): seq<Req> {
    if s.retLock.None? then []
    else
      var p := s.At(s.retLock.value);
      if p.Passing? || p.Sending? then p.queue else []
  }

  /** The queue that the holder of seq_qlock has cut off. */
  ghost function Cut(s: Conn): seq<Req> {
    if s.seqLock.None? then []
    else
      var p := s.At(s.seqLock.value);
      if p.Waiting? then p.queue else []
  }

  /** Every request is where its turn puts it. */
  ghost predicate InOrder(s: Conn) {
    && s.arrived == s.gone + Leaving(s) + Cut(s) + s.thrown + s.queue
    && (s.thrown != [] ==> s.closed && s.queue == [])
    && s.sent <= s.gone && (!s.closed ==> s.sent == s.gone)
  }

  ghost predicate AllReady(q: seq<Req>, ready: set<Req>) {
    forall r :: r in q ==> r in ready
  }

  /** What left the queue was ready, and a ready request does not wait at its head. */
  ghost predicate Ready(s: Conn) {
    && AllReady(s.gone + Leaving(s) + Cut(s), s.ready)
    && (s.queue != [] ==> s.queue[0] !in s.ready)
  }

  ghost predicate Known(s: Conn) {
    && NoDup(s.arrived)
    && (forall r :: r in s.ready || r in s.nip || r in s.refused ==> r in s.arrived)
    && (forall c: Cpu :: s.At(c).Marking? ==> s.At(c).req in s.arrived && s.At(c).req !in s.ready)
  }

  /** A request that another one followed is idempotent. */
  ghost predicate Followed(queue: seq<Req>, nip: set<Req>, refused: set<Req>) {
    forall i :: 0 <= i < |queue| - 1 && queue[i + 1] !in refused ==> queue[i] !in nip
  }

  ghost predicate Inv(s: Conn) {
    Locks(s) && InOrder(s) && Ready(s) && Known(s) && Followed(s.queue, s.nip, s.refused)
  }

  lemma InvStart()
    ensures Inv(Start())
  {}

  lemma QueueArrived(s: Conn)
    requires InOrder(s)
    ensures forall r :: r in s.queue ==> r in s.arrived
  {}

  lemma InvArrive(s: Conn, r: Req, nonIdempotent: bool)
    requires Inv(s) && Enabled(s, Arrive(r, nonIdempotent))
    ensures Inv(Next(s, Arrive(r, nonIdempotent)))
  {
    var t := Next(s, Arrive(r, nonIdempotent));
    assert Leaving(t) == Leaving(s) && Cut(t) == Cut(s) == [];
    QueueArrived(s);
    assert t.arrived == s.gone + Leaving(s) + Cut(s) + s.thrown + t.queue;
  }

  lemma InvRefuse(s: Conn, r: Req)
    requires Inv(s) && Enabled(s, Refuse(r))
    ensures Inv(Next(s, Refuse(r)))
  {
    var t := Next(s, Refuse(r));
    assert Leaving(t) == Leaving(s) && Cut(t) == Cut(s) == [];
    QueueArrived(s);
    assert t.arrived == s.gone + Leaving(s) + Cut(s) + s.thrown + t.queue;
  }

  lemma InvLock(s: Conn, c: Cpu, r: Req)
    requires Inv(s) && Enabled(s, Lock(c, r))
    ensures Inv(Next(s, Lock(c, r)))
  {
    var t := Next(s, Lock(c, r));
    assert Leaving(t) == Leaving(s) && Cut(t) == Cut(s) == [];
  }

  /** A response for a request that nobody waits for any more. */
  lemma InvMarkLate(s: Conn, c: Cpu)
    requires Inv(s) && s.At(c).Marking? && s.queue == []
    ensures Inv(Marked(s, c, s.At(c).req))
  {
    var t := Marked(s, c, s.At(c).req);
    assert Leaving(t) == Leaving(s) && Cut(t) == [] == Cut(s);
  }

  /** A response that must wait for others. */
  lemma InvMarkWait(s: Conn, c: Cpu)
    requires Inv(s) && s.At(c).Marking? && s.queue != []
    requires ReadyHead(s.queue, s.ready + {s.At(c).req}) == 0
    ensures Inv(Marked(s, c, s.At(c).req))
  {
    var t := Marked(s, c, s.At(c).req);
    assert Leaving(t) == Leaving(s) && Cut(t) == [] == Cut(s);
  }

  lemma MarkGoOrder(s: Conn, t: Conn, n: nat)
    requires InOrder(s) && 0 < n <= |s.queue| && Cut(s) == []
    requires t.arrived == s.arrived && t.gone == s.gone && t.sent == s.sent
    requires t.thrown == s.thrown && t.closed == s.closed
    requires Leaving(t) == Leaving(s) && Cut(t) == s.queue[..n] && t.queue == s.queue[n..]
    ensures InOrder(t)
  {
    assert s.queue == s.queue[..n] + s.queue[n..];
    assert s.thrown == [];
    assert s.gone + Leaving(s) + Cut(s) + s.thrown + s.queue == t.gone + Leaving(t) + Cut(t) + t.thrown + t.queue;
  }

  /** A response that lets others go. */
  lemma InvMarkGo(s: Conn, c: Cpu)
    requires Inv(s) && s.At(c).Marking? && s.queue != []
    requires ReadyHead(s.queue, s.ready + {s.At(c).req}) > 0
    ensures Inv(Marked(s, c, s.At(c).req))
  {
    hide InOrder;
    var t, ready := Marked(s, c, s.At(c).req), s.ready + {s.At(c).req};
    var n := ReadyHead(s.queue, ready);
    assert Leaving(t) == Leaving(s) && Cut(s) == [] && Cut(t) == s.queue[..n];
    MarkGoOrder(s, t, n);
    assert Locks(t);
    assert Known(t);
    assert AllReady(t.gone + Leaving(t) + Cut(t), t.ready);
    assert (t.queue != [] ==> t.queue[0] !in t.ready);
    assert Followed(t.queue, t.nip, t.refused);
  }

  lemma InvTakeRet(s: Conn, c: Cpu)
    requires Inv(s) && Enabled(s, TakeRet(c))
    ensures Inv(Next(s, TakeRet(c)))
  {
    var t := Next(s, TakeRet(c));
    assert Leaving(t) == Cut(s) && Cut(t) == [] == Leaving(s);
    assert t.gone + Leaving(t) + Cut(t) == s.gone + Leaving(s) + Cut(s);
  }

  lemma InvReleaseSeq(s: Conn, c: Cpu)
    requires Inv(s) && Enabled(s, ReleaseSeq(c))
    ensures Inv(Next(s, ReleaseSeq(c)))
  {
    var t := Next(s, ReleaseSeq(c));
    assert Leaving(t) == Leaving(s) && Cut(t) == [] == Cut(s);
  }

  lemma InvSend(s: Conn, c: Cpu, ok: bool)
    requires Inv(s) && Enabled(s, Send(c, ok))
    ensures Inv(Next(s, Send(c, ok)))
  {
    var t := Next(s, Send(c, ok));
    var q := s.At(c).queue;
    assert Leaving(s) == q && Cut(t) == Cut(s);
    assert q == [q[0]] + q[1..];
    assert t.gone + Leaving(t) == s.gone + Leaving(s);
  }

  lemma InvDone(s: Conn, c: Cpu)
    requires Inv(s) && Enabled(s, Done(c))
    ensures Inv(Next(s, Done(c)))
  {
    var t := Next(s, Done(c));
    assert Leaving(t) == [] == Leaving(s) && Cut(t) == Cut(s);
  }

  lemma InvDrop(s: Conn)
    requires Inv(s) && Enabled(s, Drop)
    ensures Inv(Next(s, Drop))
  {
    var t := Next(s, Drop);
    assert Leaving(t) == Leaving(s) && Cut(t) == Cut(s) == [];
  }

  lemma InvStep(s: Conn, e: Event)
    requires Inv(s) && Enabled(s, e)
    ensures Inv(Next(s, e))
  {
    hide Inv;
    match e
    case Arrive(r, nonIdempotent) => InvArrive(s, r, nonIdempotent);
    case Refuse(r) => InvRefuse(s, r);
    case Lock(c, r) => InvLock(s, c, r);
    case Mark(c) =>
      if s.queue == [] {
        InvMarkLate(s, c);
      } else if ReadyHead(s.queue, s.ready + {s.At(c).req}) == 0 {
        InvMarkWait(s, c);
      } else {
        InvMarkGo(s, c);
      }
    case TakeRet(c) => InvTakeRet(s, c);
    case ReleaseSeq(c) => InvReleaseSeq(s, c);
    case Send(c, ok) => InvSend(s, c, ok);
    case Done(c) => InvDone(s, c);
    case Drop => InvDrop(s);
  }

  lemma {:induction false} RunKeepsInv(states: seq<Conn>, events: seq<Event>, i: nat)
    requires Run(states, events) && i < |states|
    ensures Inv(states[i])
  {
    if i == 0 {
      InvStart();
    } else {
      RunKeepsInv(states, events, i - 1);
      InvStep(states[i - 1], events[i - 1]);
    }
  }

  // ----- what a run keeps

  /** Whatever the CPUs do, the responses leave in the order in which the requests arrived, each
      once, and none before it is ready. */
  lemma ResponsesInOrder(states: seq<Conn>, events: seq<Event>, i: nat)
    requires Run(states, events) && i < |states|
    ensures states[i].sent <= states[i].arrived && NoDup(states[i].sent)
    ensures AllReady(states[i].sent, states[i].ready)
  {
    RunKeepsInv(states, events, i);
    var s := states[i];
    assert s.gone <= s.arrived;
    forall k | 0 <= k < |s.sent| ensures s.sent[k] == s.arrived[k] {}
    forall r | r in s.sent ensures r in s.ready {
      assert r in s.gone;
      assert r in s.gone + Leaving(s) + Cut(s);
    }
  }

  /** On an open connection, every request that arrived is sent, being sent, cut off to be sent,
      or queued, in this order. */
  lemma ArrivalOrder(states: seq<Conn>, events: seq<Event>, i: nat)
    requires Run(states, events) && i < |states| && !states[i].closed
    ensures states[i].arrived == states[i].sent + Leaving(states[i]) + Cut(states[i]) + states[i].queue
  {
    RunKeepsInv(states, events, i);
    var s := states[i];
    assert s.gone + Leaving(s) + Cut(s) + s.thrown + s.queue == s.sent + Leaving(s) + Cut(s) + s.queue;
  }

  lemma NobodyHolds(s: Conn)
    requires Locks(s) && forall c: Cpu :: s.At(c).Idle?
    ensures s.seqLock.None? && s.retLock.None?
  {
    if s.seqLock.Some? {
      HolderIsBusy(s, s.seqLock.value);
    }
    if s.retLock.Some? {
      HolderIsBusy(s, s.retLock.value);
    }
  }

  lemma HolderIsBusy(s: Conn, c: Cpu)
    requires Locks(s) && (s.seqLock == Some(c) || s.retLock == Some(c))
    ensures !s.At(c).Idle?
  {}

  lemma {:induction false} ReadyHeadIs(a: seq<Req>, b: seq<Req>, ready: set<Req>)
    requires AllReady(a, ready) && (b != [] ==> b[0] !in ready)
    ensures ReadyHead(a + b, ready) == |a|
  {
    if a == [] {
      assert a + b == b;
    } else {
      assert (a + b)[1..] == a[1..] + b;
      ReadyHeadIs(a[1..], b, ready);
    }
  }

  /** Whenever seq_qlock is free, the first request in the queue has no response: on an open connection,
      what has been sent and what is being sent are exactly the requests before the first one without
      a response. */
  lemma NoReadyHead(states: seq<Conn>, events: seq<Event>, i: nat)
    requires Run(states, events) && i < |states| && states[i].seqLock.None?
    ensures states[i].queue != [] ==> states[i].queue[0] !in states[i].ready
    ensures !states[i].closed ==>
      |states[i].sent + Leaving(states[i])| == ReadyHead(states[i].arrived, states[i].ready)
    ensures !states[i].closed ==> states[i].arrived == states[i].sent + Leaving(states[i]) + states[i].queue
  {
    var s := states[i];
    RunKeepsInv(states, events, i);
    if !s.closed {
      ArrivalOrder(states, events, i);
      assert Cut(s) == [] && s.sent + Leaving(s) + Cut(s) == s.sent + Leaving(s);
      ReadyHeadIs(s.sent + Leaving(s), s.queue, s.ready);
    }
  }

  /** When no CPU is at work on an open connection, exactly the requests before the first one
      without a response have been answered. */
  lemma NothingLeftBehind(states: seq<Conn>, events: seq<Event>, i: nat)
    requires Run(states, events) && i < |states| && !states[i].closed
    requires forall c: Cpu :: states[i].At(c).Idle?
    ensures |states[i].sent| == ReadyHead(states[i].arrived, states[i].ready)
    ensures states[i].sent == states[i].arrived[..|states[i].sent|]
  {
    var s := states[i];
    RunKeepsInv(states, events, i);
    NobodyHolds(s);
    NoReadyHead(states, events, i);
    assert s.sent + Leaving(s) == s.sent;
  }

  /** The BUG_ONs at fw/http.c:3626 and 3636: a request that gets its response is still queued, unless the
      queue is empty, and that it is only on a closed connection; then the request is in no list at
      all. */
  lemma StillQueued(states: seq<Conn>, events: seq<Event>, i: nat, c: Cpu)
    requires Run(states, events) && i < |states| && states[i].At(c).Marking?
    ensures if states[i].queue == [] then states[i].closed else states[i].At(c).req in states[i].queue
    ensures states[i].At(c).req !in Leaving(states[i]) + Cut(states[i])
  {
    RunKeepsInv(states, events, i);
    var s := states[i];
    var r := s.At(c).req;
    assert r !in s.gone + Leaving(s) + Cut(s);
    assert s.arrived == (s.gone + Leaving(s) + Cut(s)) + (s.thrown + s.queue);
    assert r in s.thrown + s.queue;
  }

  /** A request that was followed by another one on its connection does not hold a server
      connection back any more. */
  lemma FollowedIsIdempotent(states: seq<Conn>, events: seq<Event>, i: nat, k: nat)
    requires Run(states, events) && i < |states| && k + 1 < |states[i].queue|
    requires states[i].queue[k + 1] !in states[i].refused
    ensures states[i].queue[k] !in states[i].nip
  {
    RunKeepsInv(states, events, i);
  }
}
