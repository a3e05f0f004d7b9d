/** Rescheduling over all server connections (fw/http.c:1892-1987): requests whose connection is
    lost find another one, or leave with an error, and none is lost or doubled on the way. */
module FwdPool {
  import opened Basics
  import opened FwdQueue

  ghost function TotalOf(qs: seq<seq<Req>>): multiset<Req> {
    if qs == [] then multiset{} else multiset(qs[0]) + TotalOf(qs[1..])
  }

  lemma Exchange(a: multiset<Req>, b: multiset<Req>, c: multiset<Req>, d: multiset<Req>, e: multiset<Req>)
    requires b + c == d + e
    ensures (a + b) + c == (a + d) + e
  {
    assert (a + b) + c == a + (b + c);
    assert (a + d) + e == a + (d + e);
  }

  lemma Trade(t': multiset<Req>, t: multiset<Req>, c: multiset<Req>, m: multiset<Req>, o: multiset<Req>,
              o': multiset<Req>)
    requires t' + c == t + m && m + o' == c + o
    ensures t' + o' == t + o
  {
    forall x ensures (t' + o')[x] == (t + o)[x] {
      assert (t' + c)[x] == (t + m)[x];
      assert (m + o')[x] == (c + o)[x];
    }
  }

  lemma OneOf(a: multiset<Req>, list: seq<Req>, i: nat)
    requires i < |list| && AtMostOnce(a + multiset(list))
    ensures AtMostOnce((a + multiset(list[..i])) + multiset{list[i]})
  {
    assert list == list[..i] + [list[i]] + list[i + 1..];
    forall x ensures ((a + multiset(list[..i])) + multiset{list[i]})[x] <= 1 {
      assert (a + multiset(list))[x] <= 1;
    }
  }

  /** Exchanging one queue. */
  lemma {:induction false} TotalOfUpdate(qs: seq<seq<Req>>, k: nat, q: seq<Req>)
    requires k < |qs|
    ensures TotalOf(qs[k := q]) + multiset(qs[k]) == TotalOf(qs) + multiset(q)
  {
    if k == 0 {
      assert qs[0 := q][1..] == qs[1..];
    } else {
      TotalOfUpdate(qs[1..], k - 1, q);
      assert qs[k := q][1..] == qs[1..][k - 1 := q];
      Exchange(multiset(qs[0]), TotalOf(qs[1..][k - 1 := q]), multiset(qs[k]), TotalOf(qs[1..]), multiset(q));
    }
  }

  lemma {:induction false} TotalOfHas(qs: seq<seq<Req>>, k: nat)
    requires k < |qs|
    ensures multiset(qs[k]) <= TotalOf(qs)
  {
    if k > 0 {
      TotalOfHas(qs[1..], k - 1);
    }
  }

  ghost function Queues(pool: seq<SrvConn>): (qs: seq<seq<Req>>)
    reads pool
    ensures |qs| == |pool|
    ensures forall i :: 0 <= i < |pool| ==> qs[i] == pool[i].fwdQueue
  {
    if pool == [] then [] else [pool[0].fwdQueue] + Queues(pool[1..])
  }

  /** All requests there are: queued somewhere, or gone. */
  ghost function Total(pool: seq<SrvConn>, w: World): multiset<Req>
    reads pool, w`errors, w`freed, w`answered
  {
    TotalOf(Queues(pool)) + w.Out()
  }

  ghost predicate AtMostOnce(m: multiset<Req>) {
    forall x :: m[x] <= 1
  }

  /** Different connections, each in order and with its responses paired. */
  ghost predicate Live(pool: seq<SrvConn>, nip: set<Req>)
    reads pool
  {
    && (forall i, j :: 0 <= i < j < |pool| ==> pool[i] != pool[j])
    && (forall i :: 0 <= i < |pool| ==> pool[i].Inv(nip) && pool[i].Paired())
  }

  /** What one connection keeps, takes or gives, all together keep, take or give. */
  lemma Carry(qs: seq<seq<Req>>, k: nat, q: seq<Req>, out: multiset<Req>, out': multiset<Req>)
    requires k < |qs| && multiset(q) + out' == multiset(qs[k]) + out
    ensures TotalOf(qs[k := q]) + out' == TotalOf(qs) + out
  {
    TotalOfUpdate(qs, k, q);
    Trade(TotalOf(qs[k := q]), TotalOf(qs), multiset(qs[k]), multiset(q), out, out');
  }

  lemma CarryIn(qs: seq<seq<Req>>, k: nat, q: seq<Req>, out: multiset<Req>, out': multiset<Req>, x: Req)
    requires k < |qs| && multiset(q) + out' == (multiset(qs[k]) + out) + multiset{x}
    ensures TotalOf(qs[k := q]) + out' == (TotalOf(qs) + out) + multiset{x}
  {
    Regroup3(multiset(qs[k]), out, x);
    Regroup3(TotalOf(qs), out, x);
    Carry(qs, k, q, out + multiset{x}, out');
  }

  lemma CarryOut(qs: seq<seq<Req>>, k: nat, q: seq<Req>, out: multiset<Req>, out': multiset<Req>,
                 list: multiset<Req>)
    requires k < |qs| && (multiset(q) + out') + list == multiset(qs[k]) + out
    ensures (TotalOf(qs[k := q]) + out') + list == TotalOf(qs) + out
  {
    assert (multiset(q) + out') + list == multiset(q) + (out' + list);
    assert (TotalOf(qs[k := q]) + out') + list == TotalOf(qs[k := q]) + (out' + list);
    Carry(qs, k, q, out, out' + list);
  }

  lemma Absent(qs: seq<seq<Req>>, k: nat, out: multiset<Req>, x: Req)
    requires k < |qs| && AtMostOnce(TotalOf(qs) + out + multiset{x})
    ensures x !in qs[k]
  {
    TotalOfHas(qs, k);
    assert (TotalOf(qs) + out + multiset{x})[x] == TotalOf(qs)[x] + out[x] + 1;
    assert multiset(qs[k])[x] == 0;
  }

  /** Handing a request to a connection that is not being repaired. */
  method TryConn(x: Req, k: nat, pool: seq<SrvConn>, w: World) returns (again: bool)
    requires Live(pool, w.nip) && k < |pool| && x !in pool[k].fwdQueue && !pool[k].restricted
    modifies pool, w`errors, w`freed, w`tick
    ensures Live(pool, w.nip) && Queues(pool) == old(Queues(pool))[k := pool[k].fwdQueue]
    ensures pool[k].Balance(w) == if again then old(pool[k].Balance(w)) else old(pool[k].Balance(w)) + multiset{x}
    ensures again ==> old(pool[k].OnHold(w)) || w.Refused(EBUSY)
  {
    hide World.Refused;
    hide SrvConn.Stuck;
    hide SrvConn.Forwarded;
    hide Among;
    hide SrvConn.Inv;
    hide SrvConn.Balance;
    hide SrvConn.Wired;
    again := pool[k].ReqFwd(x, w, true);
  }

  /** One attempt to hand a request to another connection; the scheduler picks no connection that
      is being repaired (fw/http.c:1918-1957, http_sched_hash.c:127-135). */
  method ReschedOnce(x: Req, k: nat, pool: seq<SrvConn>, w: World) returns (again: bool)
    requires Live(pool, w.nip) && AtMostOnce(Total(pool, w) + multiset{x})
    modifies pool, w`errors, w`freed, w`answered, w`tick
    ensures Live(pool, w.nip)
    ensures Total(pool, w) == if again then old(Total(pool, w)) else old(Total(pool, w)) + multiset{x}
    ensures again ==> k < |pool| && (old(pool[k].OnHold(w)) || w.Refused(EBUSY))
    ensures k >= |pool| || old(pool[k].restricted) ==>
      && !again && Queues(pool) == old(Queues(pool))
      && (if x in w.hm then w.freed == old(w.freed) + [x] else w.answered == old(w.answered) + [x])
  {
    hide World.Refused;
    hide Live;
    hide World.Out;
    if k >= |pool| || pool[k].restricted {
      if x in w.hm {
        w.Free(x);
      } else {
        w.Answer(x);
      }
      return false;
    }
    ghost var qs, out := Queues(pool), w.Out();
    Absent(qs, k, out, x);
    again := TryConn(x, k, pool, w);
    if again {
      Carry(qs, k, pool[k].fwdQueue, out, w.Out());
    } else {
      CarryIn(qs, k, pool[k].fwdQueue, out, w.Out(), x);
    }
  }

  /** The request becomes an error. */
  method Fail(x: Req, ghost pool: seq<SrvConn>, w: World)
    modifies w`errors
    ensures w.errors == old(w.errors) + [x] && Total(pool, w) == old(Total(pool, w)) + multiset{x}
  {
    hide World.Out;
    hide TotalOf;
    Regroup3(TotalOf(Queues(pool)), w.Out(), x);
    w.Error(x);
  }

  /** A request of a lost connection: dropped, an error, or handed on, as often as it may be
      (fw/http.c:1971-1986). One that is non-idempotent is not sent again unless configured. */
  method ReschedOne(x: Req, route: nat -> nat, pool: seq<SrvConn>, w: World)
    requires Live(pool, w.nip) && AtMostOnce(Total(pool, w) + multiset{x})
    modifies pool, w`errors, w`freed, w`answered, w`retries, w`tick
    ensures Live(pool, w.nip) && Total(pool, w) == old(Total(pool, w)) + multiset{x}
    ensures x in w.nip && !w.retryNip ==> Queues(pool) == old(Queues(pool))
    ensures var v := w.verdict(old(w.tick));
      && (w.Dropped(x, v) ==> Queues(pool) == old(Queues(pool)) && w.freed == old(w.freed) + [x])
      && (!w.Dropped(x, v) && v.expired ==> Queues(pool) == old(Queues(pool)) && w.errors == old(w.errors) + [x])
  {
    hide Live;
    hide World.Out;
    hide TotalOf;
    Regroup3(TotalOf(Queues(pool)), w.Out(), x);
    var v := w.Next();
    if w.Dropped(x, v) {
      w.Free(x);
      return;
    }
    if v.expired || (x in w.nip && !w.retryNip) {
      w.Error(x);
      return;
    }
    HandOn(x, route, pool, w);
  }

  /** Trying one connection after the other. */
  method HandOn(x: Req, route: nat -> nat, pool: seq<SrvConn>, w: World)
    requires Live(pool, w.nip) && AtMostOnce(Total(pool, w) + multiset{x})
    modifies pool, w`errors, w`freed, w`answered, w`retries, w`tick
    ensures Live(pool, w.nip) && Total(pool, w) == old(Total(pool, w)) + multiset{x}
  {
    hide Live;
    hide Total;
    hide AtMostOnce;
    while true
      invariant Live(pool, w.nip) && Total(pool, w) == old(Total(pool, w))
      decreases w.maxRefwd + 1 - w.Retries(x)
    {
      var enough := w.TooOften(x);
      if enough {
        Fail(x, pool, w);
        return;
      }
      var again := ReschedOnce(x, route(w.tick), pool, w);
      if !again {
        return;
      }
    }
  }

  /** Rescheduling a list of requests: each of them ends in one place, and no other request moves
      out of the world (fw/http.c:1964-1987). */
  method Resched(list: seq<Req>, route: nat -> nat, pool: seq<SrvConn>, w: World)
    requires Live(pool, w.nip) && AtMostOnce(Total(pool, w) + multiset(list))
    modifies pool, w`errors, w`freed, w`answered, w`retries, w`tick
    ensures Live(pool, w.nip) && Total(pool, w) == old(Total(pool, w)) + multiset(list)
  {
    hide Live;
    hide Total;
    hide AtMostOnce;
    var i := 0;
    while i < |list|
      invariant 0 <= i <= |list| && Live(pool, w.nip)
      invariant Total(pool, w) == old(Total(pool, w)) + multiset(list[..i])
    {
      assert list[..i + 1] == list[..i] + [list[i]];
      OneOf(old(Total(pool, w)), list, i);
      ReschedOne(list[i], route, pool, w);
      i := i + 1;
    }
    assert list[..i] == list;
  }

  // ----- what happens to a connection, before the list that is left is rescheduled

  method ConnectConn(k: nat, pool: seq<SrvConn>, w: World) returns (list: seq<Req>)
    requires Live(pool, w.nip) && k < |pool|
    modifies pool, w`errors, w`freed, w`retries, w`tick
    ensures Live(pool, w.nip) && Queues(pool) == old(Queues(pool))[k := pool[k].fwdQueue]
    ensures pool[k].Balance(w) + multiset(list) == old(pool[k].Balance(w))
  {
    hide SrvConn.Inv;
    hide SrvConn.Paired;
    hide SrvConn.Balance;
    hide SrvConn.Stuck;
    hide SrvConn.Forwarded;
    hide Among;
    hide Kept;
    hide NoDup;
    hide OnWire;
    list := pool[k].Connect(w);
  }

  method ConnectAt(k: nat, pool: seq<SrvConn>, w: World) returns (list: seq<Req>)
    requires Live(pool, w.nip) && k < |pool|
    modifies pool, w`errors, w`freed, w`retries, w`tick
    ensures Live(pool, w.nip) && Total(pool, w) + multiset(list) == old(Total(pool, w))
  {
    hide Live;
    hide World.Out;
    hide TotalOf;
    ghost var qs, out := Queues(pool), w.Out();
    list := ConnectConn(k, pool, w);
    CarryOut(qs, k, pool[k].fwdQueue, out, w.Out(), multiset(list));
  }

  method DownConn(k: nat, resched: bool, pool: seq<SrvConn>, w: World) returns (list: seq<Req>)
    requires Live(pool, w.nip) && k < |pool|
    modifies pool, w`errors, w`freed, w`tick
    ensures Live(pool, w.nip) && Queues(pool) == old(Queues(pool))[k := pool[k].fwdQueue]
    ensures pool[k].Balance(w) + multiset(list) == old(pool[k].Balance(w))
    ensures resched ==> pool[k].fwdQueue == []
  {
    hide SrvConn.Inv;
    hide SrvConn.Paired;
    hide SrvConn.Balance;
    hide SrvConn.Stuck;
    hide SrvConn.Forwarded;
    hide Among;
    hide Kept;
    hide NoDup;
    hide OnWire;
    list := pool[k].Down(w, resched);
  }

  method DownAt(k: nat, resched: bool, pool: seq<SrvConn>, w: World) returns (list: seq<Req>)
    requires Live(pool, w.nip) && k < |pool|
    modifies pool, w`errors, w`freed, w`tick
    ensures Live(pool, w.nip) && Total(pool, w) + multiset(list) == old(Total(pool, w))
    ensures resched ==> pool[k].fwdQueue == []
  {
    hide Live;
    hide World.Out;
    hide TotalOf;
    ghost var qs, out := Queues(pool), w.Out();
    list := DownConn(k, resched, pool, w);
    CarryOut(qs, k, pool[k].fwdQueue, out, w.Out(), multiset(list));
  }

  method ForwardConn(k: nat, x: Req, pool: seq<SrvConn>, w: World) returns (list: seq<Req>)
    requires Live(pool, w.nip) && k < |pool| && x !in pool[k].fwdQueue && !pool[k].restricted
    modifies pool, w`errors, w`freed, w`tick
    ensures Live(pool, w.nip) && Queues(pool) == old(Queues(pool))[k := pool[k].fwdQueue]
    ensures pool[k].Balance(w) + multiset(list) == old(pool[k].Balance(w)) + multiset{x}
  {
    hide SrvConn.Inv;
    hide SrvConn.Balance;
    hide SrvConn.Wired;
    list := pool[k].FwdResched(x, w);
  }

  method ForwardAt(k: nat, x: Req, pool: seq<SrvConn>, w: World) returns (list: seq<Req>)
    requires Live(pool, w.nip) && k < |pool| && x !in pool[k].fwdQueue && !pool[k].restricted
    modifies pool, w`errors, w`freed, w`tick
    ensures Live(pool, w.nip) && Total(pool, w) + multiset(list) == old(Total(pool, w)) + multiset{x}
  {
    hide Live;
    hide World.Out;
    hide TotalOf;
    ghost var qs, out := Queues(pool), w.Out();
    list := ForwardConn(k, x, pool, w);
    Regroup3(multiset(qs[k]), out, x);
    CarryOut(qs, k, pool[k].fwdQueue, out + multiset{x}, w.Out(), multiset(list));
    Regroup3(TotalOf(qs), out, x);
  }

  method PopConn(k: nat, fwdUnsent: bool, pool: seq<SrvConn>, w: World) returns (x: Req, list: seq<Req>)
    requires Live(pool, w.nip) && k < |pool| && pool[k].sent > 0 && (pool[k].up ==> pool[k].wire != [])
    modifies pool, w`errors, w`freed, w`retries, w`tick
    ensures Live(pool, w.nip) && Queues(pool) == old(Queues(pool))[k := pool[k].fwdQueue]
    ensures pool[k].Balance(w) + multiset(list) + multiset{x} == old(pool[k].Balance(w))
    ensures old(pool[k].up) ==> x == old(pool[k].wire[0])
  {
    hide SrvConn.Inv;
    hide SrvConn.Paired;
    hide SrvConn.Balance;
    hide SrvConn.Stuck;
    hide SrvConn.Forwarded;
    hide Among;
    hide NoDup;
    x, list := pool[k].PopReq(w, fwdUnsent);
  }

  method PopAt(k: nat, fwdUnsent: bool, pool: seq<SrvConn>, w: World) returns (x: Req, list: seq<Req>)
    requires Live(pool, w.nip) && k < |pool| && pool[k].sent > 0 && (pool[k].up ==> pool[k].wire != [])
    modifies pool, w`errors, w`freed, w`retries, w`tick
    ensures Live(pool, w.nip) && Total(pool, w) + (multiset(list) + multiset{x}) == old(Total(pool, w))
    ensures old(pool[k].up) ==> x == old(pool[k].wire[0])
  {
    hide Live;
    hide World.Out;
    hide TotalOf;
    ghost var qs, out := Queues(pool), w.Out();
    x, list := PopConn(k, fwdUnsent, pool, w);
    Regroup3(pool[k].Balance(w), multiset(list), x);
    CarryOut(qs, k, pool[k].fwdQueue, out, w.Out(), multiset(list) + multiset{x});
  }

  // ----- what happens to all connections: every step of the forwarding keeps the connections in
  // ----- order and loses or doubles no request

  /** Another request of the client has followed a non-idempotent one, which loses its mark
      (fw/http.c:4933-4949), while it is queued anywhere. */
  method Followed(x: Req, pool: seq<SrvConn>, w: World)
    requires Live(pool, w.nip)
    modifies w`nip
    ensures w.nip == old(w.nip) - {x} && Live(pool, w.nip) && Total(pool, w) == old(Total(pool, w))
  {
    hide SrvConn.Inv;
    hide SrvConn.Paired;
    forall i | 0 <= i < |pool| ensures pool[i].Inv(w.nip - {x}) {
      pool[i].InvMonotone(w.nip, w.nip - {x});
    }
    w.nip := w.nip - {x};
  }

  /** A connection is established, again or for the first time. */
  method Connected(k: nat, route: nat -> nat, pool: seq<SrvConn>, w: World)
    requires Live(pool, w.nip) && AtMostOnce(Total(pool, w)) && k < |pool|
    modifies pool, w`errors, w`freed, w`answered, w`retries, w`tick
    ensures Live(pool, w.nip) && Total(pool, w) == old(Total(pool, w))
  {
    hide *;
    var list := ConnectAt(k, pool, w);
    Resched(list, route, pool, w);
  }

  /** A connection is lost (fw/http.c:2095-2114, 2146-2153). */
  method Closed(k: nat, resched: bool, route: nat -> nat, pool: seq<SrvConn>, w: World)
    requires Live(pool, w.nip) && AtMostOnce(Total(pool, w)) && k < |pool|
    modifies pool, w`errors, w`freed, w`answered, w`retries, w`tick
    ensures Live(pool, w.nip) && Total(pool, w) == old(Total(pool, w))
  {
    hide *;
    var list := DownAt(k, resched, pool, w);
    Resched(list, route, pool, w);
  }

  /** A new request is forwarded through the connection a scheduler has picked. */
  method Forward(k: nat, x: Req, route: nat -> nat, pool: seq<SrvConn>, w: World)
    requires Live(pool, w.nip) && AtMostOnce(Total(pool, w) + multiset{x}) && k < |pool| && !pool[k].restricted
    modifies pool, w`errors, w`freed, w`answered, w`retries, w`tick
    ensures Live(pool, w.nip) && Total(pool, w) == old(Total(pool, w)) + multiset{x}
  {
    Absent(Queues(pool), k, w.Out(), x);
    hide *;
    var list := ForwardAt(k, x, pool, w);
    Resched(list, route, pool, w);
  }

  /** The server answers: the response belongs to the request that was sent first, and that one
      leaves the world, answered. */
  method Responded(k: nat, fwdUnsent: bool, route: nat -> nat, pool: seq<SrvConn>, w: World) returns (x: Req)
    requires Live(pool, w.nip) && AtMostOnce(Total(pool, w)) && k < |pool|
    requires pool[k].sent > 0 && (pool[k].up ==> pool[k].wire != [])
    modifies pool, w`errors, w`freed, w`answered, w`retries, w`tick
    ensures Live(pool, w.nip) && Total(pool, w) + multiset{x} == old(Total(pool, w))
    ensures old(pool[k].up) ==> x == old(pool[k].wire[0])
  {
    hide *;
    var list;
    x, list := PopAt(k, fwdUnsent, pool, w);
    Regroup3(Total(pool, w), multiset(list), x);
    Less(Total(pool, w) + multiset(list), x);
    Resched(list, route, pool, w);
  }

  lemma Less(a: multiset<Req>, x: Req)
    requires AtMostOnce(a + multiset{x})
    ensures AtMostOnce(a)
  {
    forall y ensures a[y] <= 1 {
      assert (a + multiset{x})[y] <= 1;
    }
  }
}
