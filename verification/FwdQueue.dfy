/** The forwarding queue of a server connection (fw/http.c): requests sent but not answered, then
    requests not sent yet, through send errors, evictions, repair and rescheduling. */
module FwdQueue {
  import opened Basics

  type Req = nat

  /** The outcome of handing a request to the socket layer. EBADF: the connection is broken.
      EBUSY: its work queue is full. */
  datatype SendResult = Ok | EBADF | EBUSY | Failed

  /** What happens to the request that is looked at next: its client is gone, it has waited too
      long, and if neither, what sending it gives. */
  datatype Verdict = Verdict(dropped: bool, expired: bool, send: SendResult)

  /** The outcome of one attempt to forward a request. */
  datatype Attempt = Sent | Removed | Broken | Busy

  // ----- lists

  /** The first n requests of the queue are the sent ones, and only the last of them may be
      non-idempotent. */
  ghost predicate SentAre(q: seq<Req>, n: nat, last: Option<Req>, nip: set<Req>) {
    && n <= |q|
    && (n == 0 <==> last == None)
    && (n > 0 ==> last == Some(q[n - 1]))
    && (forall i :: 0 <= i < n - 1 ==> q[i] !in nip)
  }

  lemma SentFacts(q: seq<Req>, n: nat, last: Option<Req>, nip: set<Req>)
    requires SentAre(q, n, last, nip)
    ensures n <= |q| && (n == 0 <==> last == None) && (n > 0 ==> last == Some(q[n - 1]))
  {}

  lemma SentBefore(q: seq<Req>, n: nat, last: Option<Req>, nip: set<Req>)
    requires SentAre(q, n, last, nip)
    ensures forall i :: 0 <= i < n - 1 ==> q[i] !in nip
  {}

  /** Sending one more is right when the last one sent is idempotent. */
  lemma SentNext(q: seq<Req>, n: nat, last: Option<Req>, nip: set<Req>)
    requires SentAre(q, n, last, nip) && n < |q| && !(last.Some? && last.value in nip)
    ensures SentAre(q, n + 1, Some(q[n]), nip)
  {}

  lemma SentAppend(q: seq<Req>, n: nat, last: Option<Req>, nip: set<Req>, x: Req)
    requires SentAre(q, n, last, nip)
    ensures SentAre(q + [x], n, last, nip)
  {}

  /** Taking out a request that was not sent, one sent before the last, the last sent. */
  lemma SentWithout(q: seq<Req>, n: nat, last: Option<Req>, nip: set<Req>, i: nat)
    requires SentAre(q, n, last, nip) && i < |q|
    ensures i >= n ==> SentAre(Cut(q, i), n, last, nip)
    ensures i + 1 < n ==> SentAre(Cut(q, i), n - 1, last, nip)
    ensures i + 1 == n ==> SentAre(Cut(q, i), i, if i == 0 then None else Some(q[i - 1]), nip)
    ensures 0 < i && i + 1 == n ==> q[i - 1] !in nip
  {}


  ghost predicate EndsWith(s: seq<Req>, t: seq<Req>) {
    |s| >= |t| && s[|s| - |t|..] == t
  }

  /** While the connection works, what is unanswered on it are the first n requests. */
  ghost predicate OnWire(up: bool, wire: seq<Req>, q: seq<Req>, n: nat) {
    up ==> n <= |q| && wire == q[..n]
  }

  lemma OnWireNone(up: bool, q: seq<Req>)
    ensures OnWire(up, [], q, 0)
  {}

  lemma OnWireDown(wire: seq<Req>, q: seq<Req>, n: nat)
    ensures OnWire(false, wire, q, n)
  {}

  lemma OnWireRemoved(up: bool, wire: seq<Req>, q: seq<Req>, i: nat)
    requires i < |q| && OnWire(up, wire, q, i)
    ensures OnWire(up, wire, Cut(q, i), i)
  {}

  lemma OnWireBehind(up: bool, wire: seq<Req>, q: seq<Req>, n: nat, i: nat)
    requires n <= i < |q| && OnWire(up, wire, q, n)
    ensures OnWire(up, wire, Cut(q, i), n)
  {}

  lemma OnWireSent(up: bool, wire: seq<Req>, q: seq<Req>, i: nat)
    requires i < |q| && OnWire(up, wire, q, i)
    ensures OnWire(up, wire + [q[i]], q, i + 1)
  {}

  lemma EmptyNoDup()
    ensures NoDup([])
  {}

  /** The list without its i-th element. */
  function Cut(q: seq<Req>, i: nat): (r: seq<Req>)
    requires i < |q|
    ensures |r| == |q| - 1
  {
    q[..i] + q[i + 1..]
  }

  /** The requests a are some of the requests b, in the same order. */
  ghost predicate Among(a: seq<Req>, b: seq<Req>) {
    a == [] || (b != [] && if a[0] == b[0] then Among(a[1..], b[1..]) else Among(a, b[1..]))
  }

  lemma {:induction false} AmongItself(a: seq<Req>)
    ensures Among(a, a)
  {
    if a != [] { AmongItself(a[1..]); }
  }

  lemma {:induction false} AmongTail(a: seq<Req>, b: seq<Req>)
    requires Among(a, b) && a != []
    ensures Among(a[1..], b)
  {
    if a[0] == b[0] {
      if a[1..] != [] && a[1..][0] == b[0] {
        AmongTail(a[1..], b[1..]);
      }
    } else {
      AmongTail(a, b[1..]);
      if a[1..] != [] && a[1..][0] == b[0] {
        AmongTail(a[1..], b[1..]);
      }
    }
  }

  lemma {:induction false} AmongOn(a: seq<Req>, b: seq<Req>, c: seq<Req>)
    requires Among(a, b) && Among(b, c)
    ensures Among(a, c)
    decreases |c|
  {
    if a != [] {
      if b[0] != c[0] {
        AmongOn(a, b, c[1..]);
        AmongTail(a, c[1..]);
      } else if a[0] == b[0] {
        AmongOn(a[1..], b[1..], c[1..]);
      } else {
        AmongOn(a, b[1..], c[1..]);
      }
    }
  }

  lemma {:induction false} AmongIn(a: seq<Req>, b: seq<Req>, x: Req)
    requires Among(a, b) && x in a
    ensures x in b
  {
    if a[0] != b[0] {
      AmongIn(a, b[1..], x);
    } else if a[0] != x {
      AmongIn(a[1..], b[1..], x);
    }
  }

  lemma {:induction false} AmongCut(q: seq<Req>, i: nat)
    requires i < |q|
    ensures Among(Cut(q, i), q)
    decreases i
  {
    if i == 0 {
      assert Cut(q, 0) == q[1..];
      AmongItself(q);
      AmongTail(q, q);
    } else {
      assert Cut(q, i)[1..] == Cut(q[1..], i - 1);
      AmongCut(q[1..], i - 1);
    }
  }

  /** A queue that was forwarded from: what had been sent is still there, and as long as something
      is unsent, so is the last request. */
  ghost predicate Grown(q: seq<Req>, n: nat, q': seq<Req>, n': nat) {
    && n <= |q| && n <= n' <= |q'| && q'[..n] == q[..n]
    && (n' < |q'| ==> n < |q| && q'[|q'| - 1] == q[|q| - 1])
  }

  lemma GrownStart(q: seq<Req>, n: nat)
    requires n <= |q|
    ensures Grown(q, n, q, n)
  {}

  lemma GrownOn(q: seq<Req>, n: nat, q1: seq<Req>, n1: nat, q2: seq<Req>, n2: nat)
    requires Grown(q, n, q1, n1) && Grown(q1, n1, q2, n2)
    ensures Grown(q, n, q2, n2)
  {
    assert q2[..n] == q2[..n1][..n];
    assert q1[..n] == q1[..n1][..n];
  }

  lemma GrownStep(q: seq<Req>, n: nat)
    requires n < |q|
    ensures Grown(q, n, q, n) && Grown(q, n, q, n + 1) && Grown(q, n, Cut(q, n), n)
  {}

  lemma CutFirst(q: seq<Req>)
    requires q != []
    ensures Cut(q, 0) == q[1..]
  {}

  /** The list without an element. */
  function Del(s: seq<Req>, x: Req): (r: seq<Req>)
    ensures forall y :: y in r <==> y in s && y != x
  {
    if s == [] then [] else (if s[0] == x then [] else [s[0]]) + Del(s[1..], x)
  }

  lemma {:induction false} DelAbsent(s: seq<Req>, x: Req)
    requires x !in s
    ensures Del(s, x) == s
  {
    if s != [] {
      DelAbsent(s[1..], x);
    }
  }

  /** Taking out the i-th element of a list without repetitions. */
  lemma {:induction false} DelAt(s: seq<Req>, i: nat)
    requires NoDup(s) && i < |s|
    ensures Del(s, s[i]) == Cut(s, i)
  {
    if i == 0 {
      DelAbsent(s[1..], s[0]);
    } else {
      DelAt(s[1..], i - 1);
      assert s[1..][i - 1] == s[i];
      assert s[..i] + s[i + 1..] == [s[0]] + (s[1..][..i - 1] + s[1..][i..]);
    }
  }

  lemma {:induction false} DelKeepsNoDup(s: seq<Req>, x: Req)
    requires NoDup(s)
    ensures NoDup(Del(s, x))
  {
    if s != [] {
      DelKeepsNoDup(s[1..], x);
      forall j | 0 <= j < |Del(s[1..], x)| ensures Del(s[1..], x)[j] != s[0] {
        assert Del(s[1..], x)[j] in s[1..];
      }
    }
  }

  lemma {:induction false} DelMultiset(s: seq<Req>, x: Req)
    requires NoDup(s) && x in s
    ensures multiset(Del(s, x)) + multiset{x} == multiset(s)
  {
    assert s == [s[0]] + s[1..];
    if s[0] == x {
      DelAbsent(s[1..], x);
    } else {
      DelMultiset(s[1..], x);
      assert Del(s, x) == [s[0]] + Del(s[1..], x);
    }
  }

  /** Sending again: of the queue q, the first i requests have been sent again, those up to end
      still wait, and rest was never sent. The request sent last before is the last of them
      unless it is gone; no other is non-idempotent. */
  ghost predicate Resending(q: seq<Req>, i: nat, end: nat, alive: bool, last: Option<Req>, resent: Option<Req>,
                            nip: set<Req>, rest: seq<Req>)
  {
    && i <= end <= |q| && q[end..] == rest
    && (alive ==> end > 0 && last == Some(q[end - 1]))
    && resent == (if i == 0 then None else Some(q[i - 1]))
    && forall j :: 0 <= j < end && q[j] in nip ==> alive && j == end - 1
  }

  lemma ResendStart(q: seq<Req>, end: nat, last: Option<Req>, nip: set<Req>)
    requires 0 < end <= |q| && last == Some(q[end - 1]) && forall j :: 0 <= j < end - 1 ==> q[j] !in nip
    ensures Resending(q, 0, end, true, last, None, nip, q[end..])
  {}

  /** What is sent when sending again stops: before request i, or with all of them. */
  lemma ResendStop(q: seq<Req>, i: nat, end: nat, alive: bool, last: Option<Req>, resent: Option<Req>,
                   nip: set<Req>, rest: seq<Req>)
    requires Resending(q, i, end, alive, last, resent, nip, rest)
    ensures SentAre(q, i, resent, nip) && (alive ==> SentAre(q, end, last, nip))
  {}

  lemma ResendFacts(q: seq<Req>, i: nat, end: nat, alive: bool, last: Option<Req>, resent: Option<Req>,
                    nip: set<Req>, rest: seq<Req>)
    requires Resending(q, i, end, alive, last, resent, nip, rest)
    ensures i <= end <= |q| && q[end..] == rest && EndsWith(q, rest)
    ensures (alive ==> end > 0 && last == Some(q[end - 1])) && resent == (if i == 0 then None else Some(q[i - 1]))
  {}

  lemma ResendRemoved(q: seq<Req>, i: nat, end: nat, alive: bool, last: Option<Req>, resent: Option<Req>,
                      nip: set<Req>, rest: seq<Req>)
    requires Resending(q, i, end, alive, last, resent, nip, rest) && i < end
    ensures Resending(Cut(q, i), i, end - 1, alive && i + 1 < end, last, resent, nip, rest)
  {
    var q' := Cut(q, i);
    assert q'[end - 1..] == q[end..];
    forall j | 0 <= j < end - 1 && q'[j] in nip ensures alive && i + 1 < end && j == end - 2 {
      assert j >= i ==> q'[j] == q[j + 1];
    }
  }

  lemma ResendSent(q: seq<Req>, i: nat, end: nat, alive: bool, last: Option<Req>, resent: Option<Req>,
                   nip: set<Req>, rest: seq<Req>)
    requires Resending(q, i, end, alive, last, resent, nip, rest) && i < end
    ensures Resending(q, i + 1, end, alive, last, Some(q[i]), nip, rest)
  {}

  /** All requests and what becomes of them when they leave the queues. */
  class World {
    /** Requests that are non-idempotent at the moment. */
    var nip: set<Req>
    /** Health monitoring requests. */
    const hm: set<Req>
    /** How often a request has been sent again. */
    var retries: map<Req, nat>
    /** Requests to be answered with an error, freed, and answered. */
    var errors: seq<Req>
    var freed: seq<Req>
    var answered: seq<Req>
    /** What the outside decides, one decision after the other. */
    const verdict: nat -> Verdict
    var tick: nat
    const maxRefwd: nat
    const retryNip: bool

    constructor (nip0: set<Req>, hm0: set<Req>, verdict0: nat -> Verdict, maxRefwd0: nat, retryNip0: bool)
      ensures nip == nip0 && errors == freed == answered == []
    {
      nip, hm, retries, errors, freed, answered := nip0, hm0, map[], [], [], [];
      verdict, tick, maxRefwd, retryNip := verdict0, 0, maxRefwd0, retryNip0;
    }

    ghost function Out(): multiset<Req>
      reads this`errors, this`freed, this`answered
    {
      multiset(errors) + multiset(freed) + multiset(answered)
    }

    method Next() returns (v: Verdict)
      modifies this`tick
      ensures v == verdict(old(tick)) && tick == old(tick) + 1
    {
      v := verdict(tick);
      tick := tick + 1;
    }

    /** The request's client is gone; health monitoring requests have none. */
    predicate Dropped(x: Req, v: Verdict) {
      v.dropped && x !in hm
    }

    /** What becomes of a request that is forwarded with this decision. */
    ghost function Outcome(x: Req, v: Verdict): Attempt {
      if Dropped(x, v) || v.expired || v.send == Failed then Removed
      else if v.send == Ok then Sent else if v.send == EBADF then Broken else Busy
    }

    /** What becomes of a request that is sent again, for the n-th time. */
    ghost function Again(x: Req, v: Verdict, n: nat): Attempt {
      if n >= maxRefwd then Removed else Outcome(x, v)
    }

    /** The last decision was that the socket takes nothing, since it is broken or busy. */
    ghost predicate Refused(why: SendResult)
      reads this`tick
    {
      tick > 0 && verdict(tick - 1).send == why
    }

    /** Has the request been sent too often? This time counts (fw/http.c:1492-1505). */
    method TooOften(x: Req) returns (yes: bool)
      modifies this`retries
      ensures Retries(x) == old(Retries(x)) + 1 && (yes <==> old(Retries(x)) >= maxRefwd)
      ensures forall y :: y != x ==> Retries(y) == old(Retries(y))
    {
      yes := Retries(x) >= maxRefwd;
      retries := retries[x := Retries(x) + 1];
    }

    function Retries(x: Req): nat
      reads this`retries
    {
      if x in retries then retries[x] else 0
    }

    method Error(x: Req)
      modifies this`errors
      ensures errors == old(errors) + [x] && Out() == old(Out()) + multiset{x}
    {
      errors := errors + [x];
    }

    /** The request is answered with an error at once. */
    method Answer(x: Req)
      modifies this`answered
      ensures answered == old(answered) + [x] && Out() == old(Out()) + multiset{x}
    {
      answered := answered + [x];
    }

    method Free(x: Req)
      modifies this`freed
      ensures freed == old(freed) + [x] && Out() == old(Out()) + multiset{x}
    {
      freed := freed + [x];
    }
  }

  /** The requests that survive when each is looked at once, the first with decision t. */
  ghost function Kept(w: World, q: seq<Req>, t: nat): seq<Req> {
    if q == [] then []
    else
      var n := |q| - 1;
      Kept(w, q[..n], t) + (if w.Dropped(q[n], w.verdict(t + n)) || w.verdict(t + n).expired then [] else [q[n]])
  }

  /** The first j requests of q0 have been looked at; the first i of q are the survivors. */
  ghost predicate Shrinking(w: World, q0: seq<Req>, t: nat, j: nat, q: seq<Req>, i: nat) {
    j <= |q0| && i == |Kept(w, q0[..j], t)| && q == Kept(w, q0[..j], t) + q0[j..]
  }

  lemma ShrinkStart(w: World, q0: seq<Req>, t: nat)
    ensures Shrinking(w, q0, t, 0, q0, 0)
  {}

  lemma ShrinkFacts(w: World, q0: seq<Req>, t: nat, j: nat, q: seq<Req>, i: nat)
    requires Shrinking(w, q0, t, j, q, i)
    ensures j <= |q0| && i + |q0| == |q| + j && i == |Kept(w, q0[..j], t)|
    ensures j == |q0| ==> q == Kept(w, q0, t)
  {
    if j == |q0| { assert q0[..j] == q0; }
  }

  lemma ShrinkStep(w: World, q0: seq<Req>, t: nat, j: nat, q: seq<Req>, i: nat)
    requires Shrinking(w, q0, t, j, q, i) && j < |q0|
    ensures i < |q|
    ensures if w.Dropped(q[i], w.verdict(t + j)) || w.verdict(t + j).expired
      then Shrinking(w, q0, t, j + 1, Cut(q, i), i) else Shrinking(w, q0, t, j + 1, q, i + 1)
  {
    assert q[i] == q0[j] && q0[..j + 1][..j] == q0[..j];
  }

  class SrvConn {
    var fwdQueue: seq<Req>
    var nipQueue: seq<Req>
    var msgSent: Option<Req>
    var qsize: nat
    var hasNip: bool
    var qforwd: bool
    var restricted: bool
    /** The number of requests at the head of the queue that have been sent. */
    ghost var sent: nat
    /** The requests handed to the socket and not answered since the connection was established;
        a send that finds the socket closed ends all that. */
    ghost var wire: seq<Req>
    ghost var up: bool

    constructor ()
      ensures Inv({}) && fwdQueue == [] && Paired()
    {
      fwdQueue, nipQueue, msgSent, qsize, hasNip, qforwd, restricted, sent := [], [], None, 0, false, false, false, 0;
      wire, up := [], false;
    }

    /** The queues and their counters agree. */
    ghost predicate Core(nip: set<Req>)
      reads this`fwdQueue, this`nipQueue, this`qsize, this`hasNip
    {
      && NoDup(fwdQueue) && NoDup(nipQueue) && qsize == |fwdQueue|
      && (forall x :: x in fwdQueue && x in nip ==> x in nipQueue)
      && (forall x :: x in nipQueue ==> x in fwdQueue)
      && (hasNip <==> nipQueue != [])
    }

    ghost predicate Inv(nip: set<Req>)
      reads this`fwdQueue, this`nipQueue, this`qsize, this`hasNip, this`msgSent, this`sent
    {
      Core(nip) && SentAre(fwdQueue, sent, msgSent, nip)
    }

    /** A repair is under way in which at most the first request has been sent again. */
    predicate Probing()
      reads this`qforwd, this`restricted
    {
      restricted && !qforwd
    }

    /** The sent requests are those the server is to answer, in its order. */
    ghost predicate Wired()
      reads this`fwdQueue, this`sent, this`wire, this`up
    {
      OnWire(up, wire, fwdQueue, sent)
    }

    /** The next response is for the first request of the queue: the server has the sent
        requests, or, while probing, none or the first of them. */
    ghost predicate Paired()
      reads this`fwdQueue, this`sent, this`wire, this`up, this`qforwd, this`restricted
    {
      if Probing() then up ==> wire == [] || (sent > 0 && OnWire(up, wire, fwdQueue, 1)) else Wired()
    }

    /** Requests that turn idempotent do not harm. */
    lemma InvMonotone(nip: set<Req>, nip': set<Req>)
      requires Inv(nip) && nip' <= nip
      ensures Inv(nip')
    {}

    /** Forwarding has gone as far as it can: the last request sent is non-idempotent, nothing is
        unsent, or the socket did not take more. */
    ghost predicate Forwarded(w: World)
      reads this`fwdQueue, this`msgSent, this`sent, w`nip, w`tick
    {
      (msgSent.Some? && msgSent.value in w.nip) || sent == |fwdQueue| || w.Refused(EBADF) || w.Refused(EBUSY)
    }

    /** The socket is busy though nothing is on the way: nobody would call again. */
    ghost predicate Stuck(w: World)
      reads this`fwdQueue, this`msgSent, w`tick
    {
      w.Refused(EBUSY) && msgSent == None && fwdQueue != []
    }

    // ----- helpers (fw/http.c:1107-1271)

    /** On hold: the request sent last is non-idempotent. */
    predicate OnHold(w: World)
      reads this, w
    {
      msgSent.Some? && msgSent.value in w.nip
    }

    /** Drained: nothing is queued behind the request sent last. */
    predicate Drained()
      reads this
    {
      fwdQueue == [] || (msgSent.Some? && msgSent.value == fwdQueue[|fwdQueue| - 1])
    }

    method NipReset()
      modifies this`hasNip
      ensures hasNip == (old(hasNip) && nipQueue != [])
    {
      if nipQueue == [] {
        hasNip := false;
      }
    }

    method NipDelist(x: Req)
      modifies this`nipQueue, this`hasNip
      ensures nipQueue == Del(old(nipQueue), x) && (x !in old(nipQueue) ==> nipQueue == old(nipQueue))
      ensures hasNip == (if x in old(nipQueue) then old(hasNip) && nipQueue != [] else old(hasNip))
    {
      DelAbsentOr(nipQueue, x);
      if x in nipQueue {
        nipQueue := Del(nipQueue, x);
        NipReset();
      }
    }

    /** Requests that are no longer non-idempotent leave the list (fw/http.c:1158-1169). */
    method NipAdjust(w: World)
      requires Inv(w.nip)
      modifies this`nipQueue, this`hasNip
      ensures Inv(w.nip)
      ensures forall x :: x in nipQueue ==> x in w.nip
    {
      var i := 0;
      while i < |nipQueue|
        invariant 0 <= i <= |nipQueue| && NoDup(nipQueue)
        invariant forall x :: x in fwdQueue && x in w.nip ==> x in nipQueue
        invariant forall x :: x in nipQueue ==> x in fwdQueue
        invariant forall j :: 0 <= j < i ==> nipQueue[j] in w.nip
        invariant hasNip == old(hasNip) && (nipQueue != [] ==> hasNip)
        decreases |nipQueue| - i
      {
        if nipQueue[i] !in w.nip {
          DelAt(nipQueue, i);
          DelKeepsNoDup(nipQueue, nipQueue[i]);
          nipQueue := Del(nipQueue, nipQueue[i]);
        } else {
          i := i + 1;
        }
      }
      NipReset();
    }

    /** Adding a request (fw/http.c:1251-1258). */
    method Enlist(x: Req, w: World)
      requires Inv(w.nip) && x !in fwdQueue
      modifies this`fwdQueue, this`qsize, this`nipQueue, this`hasNip
      ensures Inv(w.nip) && fwdQueue == old(fwdQueue) + [x]
      ensures old(Wired()) ==> Wired()
      ensures multiset(fwdQueue) == multiset(old(fwdQueue)) + multiset{x}
    {
      hide SentAre;
      SentAppend(fwdQueue, sent, msgSent, w.nip, x);
      fwdQueue := fwdQueue + [x];
      qsize := qsize + 1;
      if x in w.nip {
        assert x !in nipQueue;
        nipQueue := nipQueue + [x];
        hasNip := true;
      }
    }

    /** Removing a request; the caller takes care of msgSent (fw/http.c:1265-1271). */
    method Delist(x: Req, ghost nip: set<Req>)
      requires Core(nip) && x in fwdQueue
      modifies this`fwdQueue, this`qsize, this`nipQueue, this`hasNip
      ensures Core(nip) && fwdQueue == Del(old(fwdQueue), x)
      ensures multiset(fwdQueue) + multiset{x} == multiset(old(fwdQueue))
      ensures |fwdQueue| == |old(fwdQueue)| - 1
    {
      ghost var i :| 0 <= i < |fwdQueue| && fwdQueue[i] == x;
      DelAt(fwdQueue, i);
      DelKeepsNoDup(fwdQueue, x);
      DelKeepsNoDup(nipQueue, x);
      DelMultiset(fwdQueue, x);
      NipDelist(x);
      fwdQueue := Del(fwdQueue, x);
      qsize := qsize - 1;
    }

    // ----- forwarding (fw/http.c:1435-1636)

    /** The requests in the queue and those that have left it. */
    ghost function Balance(w: World): multiset<Req>
      reads this`fwdQueue, w`errors, w`freed, w`answered
    {
      multiset(fwdQueue) + w.Out()
    }

    /** A request leaves the queue, to be dealt with by the caller. */
    method Detach(x: Req, w: World)
      requires Core(w.nip) && x in fwdQueue
      modifies this`fwdQueue, this`qsize, this`nipQueue, this`hasNip
      ensures Core(w.nip) && fwdQueue == Del(old(fwdQueue), x)
      ensures Balance(w) + multiset{x} == old(Balance(w))
    {
      hide Core;
      hide Del;
      hide World.Out;
      Delist(x, w.nip);
      Regroup(multiset(fwdQueue), x, w.Out());
    }

    /** A request leaves the queue, for the error list or for good. */
    method Discard(x: Req, w: World, toErrors: bool)
      requires Core(w.nip) && x in fwdQueue
      modifies this`fwdQueue, this`qsize, this`nipQueue, this`hasNip, w`errors, w`freed
      ensures Core(w.nip) && fwdQueue == Del(old(fwdQueue), x) && Balance(w) == old(Balance(w))
      ensures w.errors == old(w.errors) + (if toErrors then [x] else [])
      ensures w.freed == old(w.freed) + (if toErrors then [] else [x])
    {
      hide Core;
      hide Del;
      hide World.Out;
      Detach(x, w);
      Regroup3(multiset(fwdQueue), w.Out(), x);
      if toErrors {
        w.Error(x);
      } else {
        w.Free(x);
      }
    }

    /** A request whose client is gone is freed, one that has waited too long is an error
        (fw/http.c:1435-1486, 1507-1513). */
    method EvictStale(x: Req, w: World, v: Verdict) returns (gone: bool)
      requires Core(w.nip) && x in fwdQueue
      modifies this`fwdQueue, this`qsize, this`nipQueue, this`hasNip, w`errors, w`freed
      ensures Core(w.nip) && Balance(w) == old(Balance(w))
      ensures fwdQueue == if gone then Del(old(fwdQueue), x) else old(fwdQueue)
      ensures gone <==> w.Dropped(x, v) || v.expired
      ensures w.freed == old(w.freed) + (if w.Dropped(x, v) then [x] else [])
      ensures w.errors == old(w.errors) + (if !w.Dropped(x, v) && v.expired then [x] else [])
    {
      hide Core;
      hide Balance;
      if w.Dropped(x, v) {
        Discard(x, w, false);
        return true;
      }
      if v.expired {
        Discard(x, w, true);
        return true;
      }
      return false;
    }

    /** As before; and a request sent too often is an error too (fw/http.c:1492-1522). */
    method Evict(x: Req, w: World, v: Verdict) returns (gone: bool)
      requires Core(w.nip) && x in fwdQueue
      modifies this`fwdQueue, this`qsize, this`nipQueue, this`hasNip, w`errors, w`freed, w`retries
      ensures Core(w.nip) && Balance(w) == old(Balance(w))
      ensures fwdQueue == if gone then Del(old(fwdQueue), x) else old(fwdQueue)
      ensures gone <==> w.Dropped(x, v) || v.expired || old(w.Retries(x)) >= w.maxRefwd
      ensures w.Retries(x) == old(w.Retries(x)) + (if w.Dropped(x, v) || v.expired then 0 else 1)
      ensures w.freed == old(w.freed) + (if w.Dropped(x, v) then [x] else [])
      ensures w.errors == old(w.errors) + (if gone && !w.Dropped(x, v) then [x] else [])
    {
      hide Core;
      hide Balance;
      gone := EvictStale(x, w, v);
      if !gone {
        gone := w.TooOften(x);
        if gone {
          Discard(x, w, true);
        }
      }
    }

    /** Handing a request to the socket layer (fw/http.c:1531-1561). */
    method FwdSend(x: Req, w: World, v: Verdict) returns (r: Attempt)
      requires Core(w.nip) && x in fwdQueue
      modifies this`fwdQueue, this`qsize, this`nipQueue, this`hasNip, this`wire, this`up, w`errors, w`freed
      ensures Core(w.nip) && Balance(w) == old(Balance(w))
      ensures fwdQueue == if r == Removed then Del(old(fwdQueue), x) else old(fwdQueue)
      ensures (v.send == Ok <==> r == Sent) && (v.send == EBADF <==> r == Broken) && (v.send == EBUSY <==> r == Busy)
      ensures up == (old(up) && r != Broken) && wire == if r == Sent then old(wire) + [x] else old(wire)
      ensures w.freed == old(w.freed) + (if r == Removed && x in w.hm then [x] else [])
      ensures w.errors == old(w.errors) + (if r == Removed && x !in w.hm then [x] else [])
    {
      hide Core;
      hide Balance;
      match v.send
      case Ok =>
        r := Sent;
        wire := wire + [x];
      case EBADF =>
        r := Broken;
        up := false;
      case EBUSY => r := Busy;
      case Failed =>
        Discard(x, w, x !in w.hm);
        r := Removed;
    }

    /** Forwarding the first unsent request (fw/http.c:1567-1580). */
    method FwdSingle(x: Req, w: World) returns (r: Attempt)
      requires Inv(w.nip) && !OnHold(w) && sent < |fwdQueue| && x == fwdQueue[sent]
      modifies this`fwdQueue, this`qsize, this`nipQueue, this`hasNip, this`msgSent, this`sent, this`wire, this`up
      modifies w`errors, w`freed, w`tick
      ensures Inv(w.nip) && Balance(w) == old(Balance(w))
      ensures w.tick == old(w.tick) + 1 && r == w.Outcome(x, w.verdict(old(w.tick)))
      ensures r == Sent ==> fwdQueue == old(fwdQueue) && sent == old(sent) + 1 && msgSent == Some(x)
      ensures r == Removed ==> fwdQueue == old(Cut(fwdQueue, sent))
      ensures r == Broken || r == Busy ==> fwdQueue == old(fwdQueue)
      ensures up == (old(up) && r != Broken) && wire == if r == Sent then old(wire) + [x] else old(wire)
      ensures r != Sent ==> sent == old(sent) && msgSent == old(msgSent)
    {
      hide Balance;
      hide Cut;
      hide Core;
      hide SentAre;
      hide Del;
      CoreNoDup(w.nip);
      SentNext(fwdQueue, sent, msgSent, w.nip);
      SentWithout(fwdQueue, sent, msgSent, w.nip, sent);
      DelAt(fwdQueue, sent);
      var v := w.Next();
      var gone := EvictStale(x, w, v);
      if gone {
        return Removed;
      }
      r := FwdSend(x, w, v);
      if r == Sent {
        msgSent := Some(x);
        sent := sent + 1;
      }
    }

    /** A request that is idempotent after all leaves the list of the others. */
    method DropNip(x: Req, w: World)
      requires Core(w.nip) && x !in w.nip
      modifies this`nipQueue, this`hasNip
      ensures Core(w.nip)
    {
      DelKeepsNoDup(nipQueue, x);
      NipDelist(x);
    }

    /** Where forwarding goes on. */
    function NextIndex(): nat
      reads this
    {
      if msgSent.None? then 0 else IndexOf(fwdQueue, msgSent.value) + 1
    }

    lemma NextIndexIsSent(nip: set<Req>)
      requires Inv(nip)
      ensures NextIndex() == sent
    {
      if sent > 0 { IndexOfAt(fwdQueue, sent - 1); }
    }

    /** One round of forwarding. */
    method FwdStep(i: nat, w: World) returns (r: Attempt)
      requires Inv(w.nip) && !OnHold(w) && i == sent < |fwdQueue|
      modifies this`fwdQueue, this`qsize, this`nipQueue, this`hasNip, this`msgSent, this`sent, this`wire, this`up
      modifies w`errors, w`freed, w`tick
      ensures Inv(w.nip) && Balance(w) == old(Balance(w))
      ensures Grown(old(fwdQueue), old(sent), fwdQueue, sent) && Among(fwdQueue, old(fwdQueue))
      ensures |fwdQueue| - sent == |old(fwdQueue)| - old(sent) - (if r == Sent || r == Removed then 1 else 0)
      ensures old(Wired()) ==> Wired()
      ensures (r == Broken ==> w.Refused(EBADF)) && (r == Busy ==> w.Refused(EBUSY))
      ensures if r == Sent then sent == old(sent) + 1 else sent == old(sent) && !OnHold(w)
    {
      hide Balance;
      hide Core;
      hide Cut;
      hide OnWire;
      hide SentAre;
      hide Among;
      GrownStep(fwdQueue, sent);
      AmongCut(fwdQueue, sent);
      AmongItself(fwdQueue);
      if Wired() {
        OnWireRemoved(up, wire, fwdQueue, sent);
        OnWireSent(up, wire, fwdQueue, sent);
      }
      OnWireDown(wire, fwdQueue, sent);
      var x := fwdQueue[i];
      r := FwdSingle(x, w);
      if r == Sent && x !in w.nip {
        DropNip(x, w);
      }
    }

    /** Forwarding the unsent requests until one is non-idempotent or the connection does not
        take more (fw/http.c:1589-1636). The queue must not be drained; an error means that
        nothing is on the way. */
    method FwdUnsent(w: World) returns (err: bool)
      requires Inv(w.nip) && !OnHold(w) && !Drained()
      modifies this`fwdQueue, this`qsize, this`nipQueue, this`hasNip, this`msgSent, this`sent, this`wire, this`up
      modifies w`errors, w`freed, w`tick
      ensures Inv(w.nip) && Balance(w) == old(Balance(w))
      ensures old(Wired()) ==> Wired()
      ensures Grown(old(fwdQueue), old(sent), fwdQueue, sent) && Among(fwdQueue, old(fwdQueue))
      ensures Forwarded(w) && (err <==> Stuck(w)) && (err ==> sent < |fwdQueue|)
    {
      hide Among;
      hide Balance;
      hide Core;
      hide OnWire;
      hide SentAre;
      hide Grown;
      hide IndexOf;
      InvFacts(w.nip);
      GrownStart(fwdQueue, sent);
      AmongItself(fwdQueue);
      var i := NextIndex();
      err := false;
      while i < |fwdQueue|
        invariant Inv(w.nip) && i == sent <= |fwdQueue| && !OnHold(w)
        invariant Balance(w) == old(Balance(w))
        invariant old(Wired()) ==> Wired()
        invariant Grown(old(fwdQueue), old(sent), fwdQueue, sent) && Among(fwdQueue, old(fwdQueue))
        decreases |fwdQueue| - i
      {
        ghost var q, n := fwdQueue, sent;
        var r := FwdStep(i, w);
        InvFacts(w.nip);
        GrownOn(old(fwdQueue), old(sent), q, n, fwdQueue, sent);
        AmongOn(fwdQueue, q, old(fwdQueue));
        if r == Busy && msgSent == None {
          return true;
        }
        if r == Broken || r == Busy || OnHold(w) {
          break;
        }
        if r == Sent {
          i := i + 1;
        }
      }
      InvFacts(w.nip);
    }

    /** A new request is queued and, unless the connection is on hold, forwarding goes on. */
    method Offer(x: Req, w: World) returns (held: bool, fail: bool)
      requires Inv(w.nip) && x !in fwdQueue
      modifies this`fwdQueue, this`qsize, this`nipQueue, this`hasNip, this`msgSent, this`sent, this`wire, this`up
      modifies w`errors, w`freed, w`tick
      ensures Inv(w.nip) && Balance(w) == old(Balance(w)) + multiset{x}
      ensures old(Wired()) ==> Wired()
      ensures Forwarded(w) && Among(fwdQueue, old(fwdQueue) + [x])
      ensures (held <==> old(OnHold(w))) && (fail <==> Stuck(w))
      ensures held || fail ==> sent < |fwdQueue| && fwdQueue[|fwdQueue| - 1] == x
    {
      hide Del;
      hide Core;
      hide SentAre;
      hide NoDup;
      hide IndexOf;
      hide OnWire;
      hide Among;
      hide World.Out;
      InvFacts(w.nip);
      Enlist(x, w);
      Regroup(multiset(old(fwdQueue)), x, w.Out());
      AmongItself(fwdQueue);
      InvFacts(w.nip);
      held, fail := OnHold(w), false;
      if !held {
        fail := FwdUnsent(w);
      }
    }

    /** Forwarding a new request; one that is being rescheduled leaves again when the connection
        is on hold or takes nothing (fw/http.c:1670-1697). */
    method ReqFwd(x: Req, w: World, resched: bool) returns (refused: bool)
      requires Inv(w.nip) && x !in fwdQueue
      modifies this`fwdQueue, this`qsize, this`nipQueue, this`hasNip, this`msgSent, this`sent, this`wire, this`up
      modifies w`errors, w`freed, w`tick
      ensures Inv(w.nip)
      ensures Balance(w) == if refused then old(Balance(w)) else old(Balance(w)) + multiset{x}
      ensures old(Wired()) ==> Wired()
      ensures Among(fwdQueue, old(fwdQueue) + [x])
      ensures refused ==> resched && x !in fwdQueue && (old(OnHold(w)) || (w.Refused(EBUSY) && msgSent == None))
      ensures !refused ==> Forwarded(w) && (resched ==> !old(OnHold(w)) && !Stuck(w))
    {
      hide Core;
      hide SentAre;
      hide OnWire;
      hide Among;
      hide Forwarded;
      hide World.Refused;
      hide World.Out;
      var held, fail := Offer(x, w);
      refused := (held || fail) && resched;
      if refused {
        ghost var q, out := fwdQueue, w.Out();
        Withdraw(x, w);
        AmongOn(fwdQueue, q, old(fwdQueue) + [x]);
        Cancel(multiset(fwdQueue), out, old(Balance(w)), x);
      }
    }

    /** The last, unsent, request leaves again. */
    method Withdraw(x: Req, w: World)
      requires Inv(w.nip) && sent < |fwdQueue| && x == fwdQueue[|fwdQueue| - 1]
      modifies this`fwdQueue, this`qsize, this`nipQueue, this`hasNip
      ensures Inv(w.nip) && x !in fwdQueue && Among(fwdQueue, old(fwdQueue))
      ensures old(Wired()) ==> Wired()
      ensures multiset(fwdQueue) + multiset{x} == multiset(old(fwdQueue))
    {
      hide Del;
      hide Core;
      hide SentAre;
      hide Among;
      hide OnWire;
      hide Cut;
      AmongCut(fwdQueue, |fwdQueue| - 1);
      if Wired() { OnWireBehind(up, wire, fwdQueue, sent, |fwdQueue| - 1); }
      SentWithout(fwdQueue, sent, msgSent, w.nip, |fwdQueue| - 1);
      CoreNoDup(w.nip);
      DelAt(fwdQueue, |fwdQueue| - 1);
      Delist(x, w.nip);
    }

    // ----- repair (fw/http.c:1712-1864)

    /** The request queued before x, if any (fw/http.c:1220-1232). */
    function Previous(x: Req): Option<Req>
      reads this
    {
      var i := IndexOf(fwdQueue, x);
      if 0 < i <= |fwdQueue| then Some(fwdQueue[i - 1]) else None
    }

    /** A non-idempotent request that was sent is not sent again unless configured
        (fw/http.c:1713-1726). */
    method TreatNip(w: World)
      requires Inv(w.nip)
      modifies this`fwdQueue, this`qsize, this`nipQueue, this`hasNip, this`msgSent, this`sent, w`errors, w`freed
      ensures Inv(w.nip) && Balance(w) == old(Balance(w))
      ensures !w.retryNip ==> !OnHold(w)
      ensures !(old(OnHold(w)) && !w.retryNip) ==> fwdQueue == old(fwdQueue) && sent == old(sent)
      ensures !(old(OnHold(w)) && !w.retryNip) ==> w.errors == old(w.errors)
      ensures old(OnHold(w)) && !w.retryNip ==>
        && old(msgSent).value !in fwdQueue && w.errors == old(w.errors) + [old(msgSent).value]
        && sent == old(sent) - 1 && fwdQueue == old(Cut(fwdQueue, sent - 1))
      ensures Among(fwdQueue, old(fwdQueue)) && w.freed == old(w.freed)
    {
      hide Among;
      AmongItself(fwdQueue);
      hide Balance;
      hide Cut;
      hide Core;
      hide SentAre;
      SentFacts(fwdQueue, sent, msgSent, w.nip);
      CoreFacts(w.nip);
      hide Del;
      hide IndexOf;
      if OnHold(w) && !w.retryNip {
        var x := msgSent.value;
        assert x in nipQueue;
        AmongCut(fwdQueue, sent - 1);
        assert x !in Del(fwdQueue, x);
        SentWithout(fwdQueue, sent, msgSent, w.nip, sent - 1);
        DelAt(fwdQueue, sent - 1);
        IndexOfAt(fwdQueue, sent - 1);
        msgSent := Previous(x);
        sent := sent - 1;
        Discard(x, w, true);
      }
    }

    /** Sending one request again, or dropping it. */
    method ResendOne(i: nat, w: World) returns (a: Attempt)
      requires Core(w.nip) && i < |fwdQueue|
      modifies this`fwdQueue, this`qsize, this`nipQueue, this`hasNip, this`wire, this`up,
               w`errors, w`freed, w`retries, w`tick
      ensures Core(w.nip) && Balance(w) == old(Balance(w))
      ensures up == (old(up) && a != Broken) && wire == if a == Sent then old(wire + [fwdQueue[i]]) else old(wire)
      ensures fwdQueue == if a == Removed then old(Cut(fwdQueue, i)) else old(fwdQueue)
      ensures w.tick == old(w.tick) + 1
      ensures a == w.Again(old(fwdQueue[i]), w.verdict(old(w.tick)), old(w.Retries(fwdQueue[i])))
      ensures (a == Broken ==> w.Refused(EBADF)) && (a == Busy ==> w.Refused(EBUSY))
    {
      hide Balance;
      hide Cut;
      hide Core;
      hide Del;
      CoreNoDup(w.nip);
      var x := fwdQueue[i];
      DelAt(fwdQueue, i);
      var v := w.Next();
      var gone := Evict(x, w, v);
      if gone {
        return Removed;
      }
      a := FwdSend(x, w, v);
    }

    /** The loop of sending again. It ends with request i: the connection is broken or busy there,
        or nothing is left to do. */
    method ResendUpTo(first: bool, end0: nat, ghost rest: seq<Req>, w: World)
        returns (a: Attempt, i: nat, ghost end: nat, resent: Option<Req>, ghost alive: bool)
      requires Core(w.nip) && OnWire(up, wire, fwdQueue, 0)
      requires Resending(fwdQueue, 0, end0, true, msgSent, None, w.nip, rest)
      modifies this`fwdQueue, this`qsize, this`nipQueue, this`hasNip, this`wire, this`up
      modifies w`errors, w`freed, w`retries, w`tick
      ensures Core(w.nip) && Balance(w) == old(Balance(w))
      ensures Resending(fwdQueue, i, end, alive, msgSent, resent, w.nip, rest)
      ensures if a == Broken then !up else OnWire(up, wire, fwdQueue, i)
      ensures a == Broken || a == Busy ==> alive && (first ==> i == 0)
      ensures a != Broken && a != Busy ==> if first && i > 0 then alive && i == 1 else i == end
      ensures (a == Broken ==> w.Refused(EBADF)) && (a == Busy ==> w.Refused(EBUSY) && fwdQueue != [])
      ensures Among(fwdQueue, old(fwdQueue))
    {
      hide Among;
      hide World.Again;
      hide World.Refused;
      AmongItself(fwdQueue);
      hide Balance;
      hide Core;
      hide Resending;
      hide OnWire;
      hide Cut;
      hide EndsWith;
      hide Del;
      hide NoDup;
      hide SentAre;
      var till := end0;
      i, end, resent, alive, a := 0, end0, None, true, Sent;
      ResendFacts(fwdQueue, i, end, alive, msgSent, resent, w.nip, rest);
      while i < till
        invariant i <= till == end <= |fwdQueue| && Core(w.nip) && a != Broken && a != Busy
        invariant Resending(fwdQueue, i, end, alive, msgSent, resent, w.nip, rest)
        invariant OnWire(up, wire, fwdQueue, i)
        invariant (first ==> i == 0) && (i < end ==> alive)
        invariant Balance(w) == old(Balance(w)) && Among(fwdQueue, old(fwdQueue))
        decreases till - i
      {
        ResendFacts(fwdQueue, i, end, alive, msgSent, resent, w.nip, rest);
        ghost var q, outstanding := fwdQueue, wire;
        var x := fwdQueue[i];
        a := ResendOne(i, w);
        if a == Broken || a == Busy {
          return;
        }
        if a == Removed {
          AmongCut(q, i);
          AmongOn(fwdQueue, q, old(fwdQueue));
          OnWireRemoved(up, wire, q, i);
          ResendRemoved(q, i, end, alive, msgSent, resent, w.nip, rest);
          alive := alive && i + 1 < end;
          till, end := till - 1, end - 1;
        } else {
          OnWireSent(up, outstanding, q, i);
          ResendSent(q, i, end, alive, msgSent, resent, w.nip, rest);
          resent := Some(x);
          i := i + 1;
          if first {
            return;
          }
        }
      }
    }

    /** Sending the sent requests again, of which there are some. */
    method ResendSome(first: bool, w: World) returns (r: SendResult)
      requires Inv(w.nip) && msgSent.Some? && OnWire(up, wire, fwdQueue, 0)
      modifies this`fwdQueue, this`qsize, this`nipQueue, this`hasNip, this`msgSent, this`sent, this`wire, this`up
      modifies w`errors, w`freed, w`retries, w`tick
      ensures Inv(w.nip) && Balance(w) == old(Balance(w)) && r != Failed
      ensures EndsWith(fwdQueue, old(fwdQueue[sent..]))
      ensures r == Ok || r == EBADF ==> fwdQueue[sent..] == old(fwdQueue[sent..])
      ensures if r == EBADF then !up else if first && msgSent.Some? then OnWire(up, wire, fwdQueue, 1) else Wired()
      ensures first && r == EBUSY ==> msgSent == None
      ensures (r == EBADF ==> w.Refused(EBADF)) && (r == EBUSY ==> w.Refused(EBUSY) && fwdQueue != [])
      ensures Among(fwdQueue, old(fwdQueue))
    {
      hide Among;
      hide World.Refused;
      hide Balance;
      hide Core;
      hide IndexOf;
      hide Resending;
      hide NoDup;
      hide OnWire;
      hide SentAre;
      SentFacts(fwdQueue, sent, msgSent, w.nip);
      NextIndexIsSent(w.nip);
      SentBefore(fwdQueue, sent, msgSent, w.nip);
      ResendStart(fwdQueue, sent, msgSent, w.nip);
      ghost var rest, last := fwdQueue[sent..], msgSent;
      ghost var end, alive;
      var a, i, resent;
      a, i, end, resent, alive := ResendUpTo(first, NextIndex(), rest, w);
      ResendFacts(fwdQueue, i, end, alive, last, resent, w.nip, rest);
      ResendStop(fwdQueue, i, end, alive, last, resent, w.nip, rest);
      if a == Broken {
        sent := end;
        return EBADF;
      }
      r := if a == Busy then EBUSY else Ok;
      if a == Busy || !first || resent.None? {
        msgSent := resent;
        sent := i;
      } else {
        sent := end;
      }
    }

    /** Sending the sent requests again: the first of them only, or all (fw/http.c:1734-1800).
        What was never sent stays as it is. */
    method Resend(first: bool, w: World) returns (r: SendResult)
      requires Inv(w.nip) && OnWire(up, wire, fwdQueue, 0)
      modifies this`fwdQueue, this`qsize, this`nipQueue, this`hasNip, this`msgSent, this`sent, this`wire, this`up
      modifies w`errors, w`freed, w`retries, w`tick
      ensures Inv(w.nip) && Balance(w) == old(Balance(w)) && r != Failed
      ensures EndsWith(fwdQueue, old(fwdQueue[sent..]))
      ensures r == Ok || r == EBADF ==> fwdQueue[sent..] == old(fwdQueue[sent..])
      ensures if r == EBADF then !up else if first && msgSent.Some? then OnWire(up, wire, fwdQueue, 1) else Wired()
      ensures first && r == EBUSY ==> msgSent == None
      ensures (r == EBADF ==> w.Refused(EBADF)) && (r == EBUSY ==> w.Refused(EBUSY) && fwdQueue != [])
      ensures Among(fwdQueue, old(fwdQueue))
    {
      hide Among;
      hide World.Refused;
      hide Balance;
      hide Core;
      hide OnWire;
      AmongItself(fwdQueue);
      if msgSent.None? {
        return Ok;
      }
      r := ResendSome(first, w);
    }

    method ClearRestricted()
      modifies this`qforwd, this`restricted
      ensures !qforwd && !restricted
    {
      qforwd, restricted := false, false;
    }

    /** A repaired connection whose queue is empty is fully working again (fw/http.c:1816-1825);
        its BUG_ONs are the assertions. */
    method ReenableIfDone(ghost nip: set<Req>) returns (done: bool)
      requires Inv(nip)
      modifies this`qforwd, this`restricted
      ensures done <==> fwdQueue == []
      ensures if done then !qforwd && !restricted else qforwd == old(qforwd) && restricted == old(restricted)
    {
      if fwdQueue != [] {
        return false;
      }
      assert qsize == 0;
      assert msgSent == None;
      ClearRestricted();
      done := true;
    }

    /** Going on with a repair when a response has come (fw/http.c:1832-1864). */
    method FwdRepair(w: World) returns (err: bool)
      requires Inv(w.nip) && restricted && (if qforwd then Wired() else OnWire(up, wire, fwdQueue, 0))
      modifies this, w`errors, w`freed, w`retries, w`tick
      ensures Inv(w.nip) && Balance(w) == old(Balance(w))
      ensures Forwarded(w) && (err <==> Stuck(w)) && Among(fwdQueue, old(fwdQueue))
      ensures if err then Wired() else Paired()
    {
      hide Among;
      hide IndexOf;
      hide Grown;
      hide NoDup;
      AmongItself(fwdQueue);
      hide Balance;
      hide Core;
      hide SentAre;
      hide EndsWith;
      hide OnWire;
      InvFacts(w.nip);
      var done := ReenableIfDone(w.nip);
      if done {
        return false;
      }
      err := false;
      if !qforwd {
        var r := Resend(false, w);
        if r == EBADF {
          return false;
        }
        qforwd := true;
      }
      InvFacts(w.nip);
      ghost var q := fwdQueue;
      if !OnHold(w) && !Drained() {
        err := FwdUnsent(w);
        AmongOn(fwdQueue, q, old(fwdQueue));
      }
      InvFacts(w.nip);
      done := ReenableIfDone(w.nip);
    }

    /** Everything leaves the queue for the list to be rescheduled (fw/http.c:1238-1246). */
    method Reset(w: World) returns (list: seq<Req>)
      requires Inv(w.nip)
      modifies this`fwdQueue, this`qsize, this`nipQueue, this`hasNip, this`msgSent, this`sent
      ensures Inv(w.nip) && fwdQueue == [] && list == old(fwdQueue) && NoDup(list)
      ensures old(Wired() && msgSent == None) ==> Wired()
      ensures Balance(w) + multiset(list) == old(Balance(w))
    {
      list := fwdQueue;
      fwdQueue, qsize, msgSent, nipQueue, hasNip, sent := [], 0, None, [], false, 0;
    }

    lemma PairedFrom()
      requires OnWire(up, wire, fwdQueue, if Probing() then 0 else sent)
      ensures Paired()
    {}

    lemma SentFirst(nip: set<Req>)
      requires Inv(nip) && sent > 0
      ensures Some(fwdQueue[0]) == msgSent <==> sent == 1
    {}

    /** The server answers the first of its requests. */
    ghost method Answered()
      requires Paired() && 0 < sent <= |fwdQueue| && (up ==> wire != [])
      modifies this`wire
      ensures up ==> old(wire[0]) == fwdQueue[0]
      ensures OnWire(up, wire, fwdQueue[1..], if Probing() then 0 else sent - 1)
    {
      if wire != [] {
        wire := wire[1..];
      }
    }

    /** The first request leaves the queue: it has got its response. */
    method TakeFirst(w: World) returns (x: Req)
      requires Inv(w.nip) && sent > 0
      modifies this`fwdQueue, this`qsize, this`nipQueue, this`hasNip, this`msgSent, this`sent
      ensures Inv(w.nip) && x == old(fwdQueue[0]) && fwdQueue == old(fwdQueue[1..]) && sent == old(sent) - 1
      ensures Balance(w) + multiset{x} == old(Balance(w))
    {
      hide Del;
      hide Cut;
      hide Core;
      hide SentAre;
      hide NoDup;
      hide Balance;
      CoreNoDup(w.nip);
      SentFacts(fwdQueue, sent, msgSent, w.nip);
      x := fwdQueue[0];
      SentFirst(w.nip);
      SentWithout(fwdQueue, sent, msgSent, w.nip, 0);
      DelAt(fwdQueue, 0);
      CutFirst(fwdQueue);
      if Some(x) == msgSent {
        msgSent := None;
      }
      Detach(x, w);
      sent := sent - 1;
      NipAdjust(w);
    }

    /** Going on after a response: with the repair, or with what is unsent. */
    method GoOn(w: World) returns (err: bool)
      requires Inv(w.nip) && OnWire(up, wire, fwdQueue, if Probing() then 0 else sent)
      modifies this, w`errors, w`freed, w`retries, w`tick
      ensures Inv(w.nip) && Balance(w) == old(Balance(w))
      ensures Forwarded(w) && (err <==> Stuck(w)) && Among(fwdQueue, old(fwdQueue))
      ensures if err then Wired() else Paired()
    {
      hide Balance;
      hide Core;
      hide SentAre;
      hide OnWire;
      hide Among;
      hide IndexOf;
      InvFacts(w.nip);
      AmongItself(fwdQueue);
      err := false;
      if restricted {
        err := FwdRepair(w);
      } else if !OnHold(w) && !Drained() {
        err := FwdUnsent(w);
      }
    }

    /** When the connection is stuck, all its requests are to be rescheduled. */
    method GiveUpIf(err: bool, w: World) returns (list: seq<Req>)
      requires Inv(w.nip) && (err <==> Stuck(w)) && (if err then Wired() else Paired())
      modifies this
      ensures Inv(w.nip) && Paired() && NoDup(list) && Balance(w) + multiset(list) == old(Balance(w))
      ensures fwdQueue + list == old(fwdQueue) && (list != [] <==> err) && (list != [] ==> fwdQueue == [])
      ensures !err ==> unchanged(this)
    {
      hide Core;
      hide SentAre;
      hide OnWire;
      hide NoDup;
      hide Balance;
      EmptyNoDup();
      list := [];
      if err {
        ClearRestricted();
        list := Reset(w);
      }
    }

    /** A response has come for the first request of the queue (fw/http.c:5494-5546): the request
        leaves, to be answered, and forwarding goes on. The list is what must be rescheduled. */
    method PopReq(w: World, fwdUnsent: bool) returns (x: Req, list: seq<Req>)
      requires Inv(w.nip) && sent > 0 && Paired() && (up ==> wire != [])
      modifies this, w`errors, w`freed, w`retries, w`tick
      ensures Inv(w.nip) && x == old(fwdQueue[0])
      ensures Paired() && (old(up) ==> x == old(wire[0]))
      ensures list != [] ==> fwdQueue == [] && w.Refused(EBUSY)
      ensures fwdUnsent && list == [] ==> Forwarded(w) && !Stuck(w)
      ensures Among(fwdQueue + list, old(fwdQueue[1..])) && (!fwdUnsent ==> fwdQueue == old(fwdQueue[1..]))
      ensures NoDup(list) && Balance(w) + multiset(list) + multiset{x} == old(Balance(w))
    {
      hide Balance;
      hide Inv;
      hide NoDup;
      hide OnWire;
      hide Among;
      hide Forwarded;
      EmptyNoDup();
      InvFacts(w.nip);
      Answered();
      x := TakeFirst(w);
      PairedFrom();
      AmongItself(fwdQueue);
      list := [];
      if !fwdUnsent {
        assert fwdQueue + list == fwdQueue;
        return;
      }
      var err := GoOn(w);
      list := GiveUpIf(err, w);
    }

    /** Dropping the i-th request if it is stale. */
    method EvictAt(i: nat, w: World) returns (gone: bool)
      requires Core(w.nip) && i < |fwdQueue|
      modifies this`fwdQueue, this`qsize, this`nipQueue, this`hasNip, w`errors, w`freed, w`tick
      ensures Core(w.nip) && Balance(w) == old(Balance(w))
      ensures fwdQueue == if gone then old(Cut(fwdQueue, i)) else old(fwdQueue)
      ensures w.tick == old(w.tick) + 1
      ensures var x, v := old(fwdQueue[i]), w.verdict(old(w.tick)); gone <==> w.Dropped(x, v) || v.expired
    {
      hide Balance;
      hide Cut;
      hide Core;
      hide Del;
      CoreNoDup(w.nip);
      DelAt(fwdQueue, i);
      var v := w.Next();
      gone := EvictStale(fwdQueue[i], w, v);
    }

    /** Dropping a stale request that was sent before the last one, or never. */
    method EvictOther(i: nat, w: World) returns (gone: bool)
      requires Inv(w.nip) && i < |fwdQueue| && i + 1 != sent
      modifies this`fwdQueue, this`qsize, this`nipQueue, this`hasNip, this`sent, w`errors, w`freed, w`tick
      ensures Inv(w.nip) && Balance(w) == old(Balance(w))
      ensures fwdQueue == if gone then old(Cut(fwdQueue, i)) else old(fwdQueue)
      ensures sent == if gone && i < old(sent) then old(sent) - 1 else old(sent)
      ensures w.tick == old(w.tick) + 1
      ensures var x, v := old(fwdQueue[i]), w.verdict(old(w.tick)); gone <==> w.Dropped(x, v) || v.expired
    {
      hide Balance;
      hide Cut;
      hide Core;
      hide SentAre;
      SentFacts(fwdQueue, sent, msgSent, w.nip);
      SentWithout(fwdQueue, sent, msgSent, w.nip, i);
      gone := EvictAt(i, w);
      if gone && i < sent {
        sent := sent - 1;
      }
    }

    /** Dropping the request sent last if it is stale; the one before it takes its part. */
    method EvictSentLast(w: World) returns (gone: bool)
      requires Inv(w.nip) && sent > 0
      modifies this`fwdQueue, this`qsize, this`nipQueue, this`hasNip, this`msgSent, this`sent
      modifies w`errors, w`freed, w`tick
      ensures Inv(w.nip) && Balance(w) == old(Balance(w))
      ensures fwdQueue == if gone then old(Cut(fwdQueue, sent - 1)) else old(fwdQueue)
      ensures sent == if gone then old(sent) - 1 else old(sent)
      ensures w.tick == old(w.tick) + 1
      ensures var x, v := old(fwdQueue[sent - 1]), w.verdict(old(w.tick)); gone <==> w.Dropped(x, v) || v.expired
    {
      hide Balance;
      hide Cut;
      hide Core;
      hide SentAre;
      SentFacts(fwdQueue, sent, msgSent, w.nip);
      SentWithout(fwdQueue, sent, msgSent, w.nip, sent - 1);
      hide IndexOf;
      CoreNoDup(w.nip);
      IndexOfAt(fwdQueue, sent - 1);
      var prev := Previous(msgSent.value);
      gone := EvictAt(IndexOf(fwdQueue, msgSent.value), w);
      if gone {
        msgSent := prev;
        sent := sent - 1;
      }
    }

    /** Looking at request i, which is not the last one sent, after j others. */
    method ShrinkOne(i: nat, w: World, ghost q0: seq<Req>, ghost t0: nat, ghost j: nat) returns (gone: bool)
      requires Inv(w.nip) && i < |fwdQueue| && i + 1 != sent
      requires w.tick == t0 + j && j < |q0| && Shrinking(w, q0, t0, j, fwdQueue, i)
      modifies this`fwdQueue, this`qsize, this`nipQueue, this`hasNip, this`sent, w`errors, w`freed, w`tick
      ensures Inv(w.nip) && Balance(w) == old(Balance(w)) && w.tick == old(w.tick) + 1
      ensures sent == if gone && i < old(sent) then old(sent) - 1 else old(sent)
      ensures |fwdQueue| == if gone then |old(fwdQueue)| - 1 else |old(fwdQueue)|
      ensures Shrinking(w, q0, t0, j + 1, fwdQueue, if gone then i else i + 1)
    {
      hide Balance;
      hide Inv;
      hide Cut;
      hide Shrinking;
      hide World.Dropped;
      ShrinkStep(w, q0, t0, j, fwdQueue, i);
      gone := EvictOther(i, w);
    }

    /** Looking at the requests sent before the last one. */
    method ShrinkBefore(w: World)
      requires Inv(w.nip) && msgSent.Some?
      modifies this`fwdQueue, this`qsize, this`nipQueue, this`hasNip, this`sent, w`errors, w`freed, w`tick
      ensures Inv(w.nip) && Balance(w) == old(Balance(w)) && 0 < old(sent) <= |old(fwdQueue)| && sent > 0
      ensures w.tick == old(w.tick) + old(sent) - 1
      ensures Shrinking(w, old(fwdQueue), old(w.tick), old(sent) - 1, fwdQueue, sent - 1)
    {
      hide Balance;
      hide Inv;
      hide IndexOf;
      hide Cut;
      hide Shrinking;
      hide World.Dropped;
      InvFacts(w.nip);
      ghost var q0, n0, t0 := fwdQueue, sent, w.tick;
      ShrinkStart(w, q0, t0);
      ghost var j: nat := 0;
      var i, end := 0, IndexOf(fwdQueue, msgSent.value);
      while i < end
        invariant Inv(w.nip) && sent == end + 1 && 0 <= i <= end
        invariant Balance(w) == old(Balance(w))
        invariant j <= n0 && w.tick == t0 + j && n0 - j == sent - i
        invariant Shrinking(w, q0, t0, j, fwdQueue, i)
        decreases end - i
      {
        InvFacts(w.nip);
        var gone := ShrinkOne(i, w, q0, t0, j);
        j := j + 1;
        if gone {
          end := end - 1;
        } else {
          i := i + 1;
        }
      }
    }

    /** Looking at the requests that were sent. */
    method ShrinkSent(w: World)
      requires Inv(w.nip) && msgSent.Some?
      modifies this`fwdQueue, this`qsize, this`nipQueue, this`hasNip, this`msgSent, this`sent
      modifies w`errors, w`freed, w`tick
      ensures Inv(w.nip) && Balance(w) == old(Balance(w)) && w.tick == old(w.tick) + old(sent)
      ensures old(sent) <= |old(fwdQueue)| && Shrinking(w, old(fwdQueue), old(w.tick), old(sent), fwdQueue, sent)
    {
      hide Balance;
      hide Inv;
      hide IndexOf;
      hide Cut;
      hide Shrinking;
      hide World.Dropped;
      ShrinkBefore(w);
      InvFacts(w.nip);
      ShrinkStep(w, old(fwdQueue), old(w.tick), old(sent) - 1, fwdQueue, sent - 1);
      var last := EvictSentLast(w);
    }

    /** Looking at the requests never sent, after j others. */
    method ShrinkUnsent(w: World, ghost q0: seq<Req>, ghost t0: nat, ghost j0: nat)
      requires Inv(w.nip) && w.tick == t0 + j0 && Shrinking(w, q0, t0, j0, fwdQueue, sent)
      modifies this`fwdQueue, this`qsize, this`nipQueue, this`hasNip, this`sent, w`errors, w`freed, w`tick
      ensures Inv(w.nip) && Balance(w) == old(Balance(w)) && sent == old(sent)
      ensures fwdQueue == Kept(w, q0, t0)
    {
      hide Balance;
      hide Inv;
      hide IndexOf;
      hide Cut;
      hide Kept;
      hide Shrinking;
      hide World.Dropped;
      InvFacts(w.nip);
      ghost var j := j0;
      ShrinkFacts(w, q0, t0, j, fwdQueue, sent);
      var i := NextIndex();
      while i < |fwdQueue|
        invariant Inv(w.nip) && sent == old(sent) <= i <= |fwdQueue| && w.tick == t0 + j
        invariant Balance(w) == old(Balance(w))
        invariant Shrinking(w, q0, t0, j, fwdQueue, i)
        decreases |fwdQueue| - i
      {
        ShrinkFacts(w, q0, t0, j, fwdQueue, i);
        var gone := ShrinkOne(i, w, q0, t0, j);
        j := j + 1;
        if !gone {
          i := i + 1;
        }
      }
      ShrinkFacts(w, q0, t0, j, fwdQueue, i);
    }

    /** Dropping the stale requests of a connection that is being closed (fw/http.c:2031-2088):
        those sent before the last one, the last one, and those never sent. */
    method ShrinkFwdq(w: World)
      requires Inv(w.nip)
      modifies this`fwdQueue, this`qsize, this`nipQueue, this`hasNip, this`msgSent, this`sent
      modifies w`errors, w`freed, w`tick
      ensures Inv(w.nip) && Balance(w) == old(Balance(w))
      ensures fwdQueue == Kept(w, old(fwdQueue), old(w.tick))
      ensures old(sent) <= |old(fwdQueue)| && sent == |Kept(w, old(fwdQueue)[..old(sent)], old(w.tick))|
    {
      hide Balance;
      hide Inv;
      hide IndexOf;
      hide Shrinking;
      InvFacts(w.nip);
      ghost var q0, n0, t0 := fwdQueue, sent, w.tick;
      ShrinkStart(w, q0, t0);
      if fwdQueue == [] {
        return;
      }
      if msgSent.Some? {
        ShrinkSent(w);
      }
      hide Kept;
      ShrinkFacts(w, q0, t0, n0, fwdQueue, sent);
      ShrinkUnsent(w, q0, t0, n0);
    }

    lemma InvFacts(nip: set<Req>)
      requires Inv(nip)
      ensures sent <= |fwdQueue| && (sent == 0 <==> msgSent == None) && NextIndex() == sent
      ensures sent > 0 ==> msgSent.Some? && IndexOf(fwdQueue, msgSent.value) == sent - 1
      ensures Drained() <==> sent == |fwdQueue|
    {
      NextIndexIsSent(nip);
    }

    /** The first part of a repair: the first request is sent again or, if none is left that was
        sent, the others are forwarded. */
    method Probe(w: World) returns (err: bool)
      requires Inv(w.nip) && restricted && !qforwd && wire == []
      modifies this, w`errors, w`freed, w`retries, w`tick
      ensures Inv(w.nip) && Balance(w) == old(Balance(w)) && (if err then Wired() else Paired())
      ensures (err <==> Stuck(w)) && Among(fwdQueue, old(fwdQueue))
      ensures Forwarded(w) || (Probing() && sent > 0 && OnWire(up, wire, fwdQueue, 1))
    {
      hide Balance;
      hide Core;
      hide SentAre;
      hide NoDup;
      hide EndsWith;
      hide OnWire;
      hide Among;
      hide IndexOf;
      OnWireNone(up, fwdQueue);
      var r := Resend(true, w);
      InvFacts(w.nip);
      err := r == EBUSY;
      if r == Ok && msgSent.None? {
        ghost var q := fwdQueue;
        if fwdQueue != [] {
          qforwd := true;
          err := FwdUnsent(w);
          AmongOn(fwdQueue, q, old(fwdQueue));
          InvFacts(w.nip);
        }
        var done := ReenableIfDone(w.nip);
      }
    }

    /** Repairing a connection that has been established again (fw/http.c:2155-2207). The list is
        what must be rescheduled. */
    method Repair(w: World) returns (list: seq<Req>)
      requires Inv(w.nip) && restricted && !qforwd && wire == []
      modifies this, w`errors, w`freed, w`retries, w`tick
      ensures Inv(w.nip) && NoDup(list) && (list != [] ==> fwdQueue == [] && w.Refused(EBUSY))
      ensures list == [] ==> !Stuck(w) && (Forwarded(w) || (Probing() && sent > 0 && OnWire(up, wire, fwdQueue, 1)))
      ensures Paired()
      ensures Balance(w) + multiset(list) == old(Balance(w))
      ensures Among(fwdQueue + list, old(fwdQueue))
      ensures old(OnHold(w)) && !w.retryNip ==> old(msgSent).value !in fwdQueue + list
    {
      hide Balance;
      hide Core;
      hide SentAre;
      hide NoDup;
      hide OnWire;
      hide Among;
      hide Cut;
      EmptyNoDup();
      AmongItself(fwdQueue);
      list := [];
      if fwdQueue == [] {
        InvFacts(w.nip);
        assert fwdQueue + list == fwdQueue;
        return;
      }
      TreatNip(w);
      ghost var q := fwdQueue;
      var err := Probe(w);
      AmongOn(fwdQueue, q, old(fwdQueue));
      if old(OnHold(w)) && !w.retryNip && old(msgSent).value in fwdQueue {
        AmongIn(fwdQueue, q, old(msgSent).value);
      }
      list := GiveUpIf(err, w);
    }

    /** The connection is established again (fw/http.c:2337-2351, 2387-2397; sock_srv.c:331-350):
        nothing has been sent on it, and a queue that is left over must be repaired. */
    method Connect(w: World) returns (list: seq<Req>)
      requires Inv(w.nip)
      modifies this, w`errors, w`freed, w`retries, w`tick
      ensures Inv(w.nip) && Paired() && NoDup(list) && (list != [] ==> fwdQueue == [] && w.Refused(EBUSY))
      ensures list == [] ==> !Stuck(w) && (Forwarded(w) || (Probing() && sent > 0 && OnWire(up, wire, fwdQueue, 1)))
      ensures Balance(w) + multiset(list) == old(Balance(w))
      ensures Among(fwdQueue + list, old(fwdQueue))
      ensures old(OnHold(w)) && !w.retryNip ==> old(msgSent).value !in fwdQueue + list
      ensures old(fwdQueue) == [] ==> up && !restricted && !qforwd
    {
      hide Balance;
      hide Core;
      hide NoDup;
      hide Among;
      EmptyNoDup();
      InvFacts(w.nip);
      AmongItself(fwdQueue);
      ClearRestricted();
      restricted := fwdQueue != [];
      wire, up := [], true;
      list := [];
      assert fwdQueue + list == fwdQueue;
      if restricted {
        list := Repair(w);
      }
    }

    /** The connection is down (fw/http.c:2146-2153): its requests are to be rescheduled, or kept
        but for the stale ones. */
    method Down(w: World, resched: bool) returns (list: seq<Req>)
      requires Inv(w.nip)
      modifies this, w`errors, w`freed, w`tick
      ensures Inv(w.nip) && Paired() && NoDup(list) && (list != [] ==> fwdQueue == [])
      ensures Balance(w) + multiset(list) == old(Balance(w))
      ensures if resched then fwdQueue == [] && list == old(fwdQueue)
        else list == [] && fwdQueue == Kept(w, old(fwdQueue), old(w.tick))
    {
      hide Balance;
      hide Inv;
      hide Kept;
      hide NoDup;
      EmptyNoDup();
      up := false;
      list := [];
      if resched {
        list := Reset(w);
      } else {
        ShrinkFwdq(w);
      }
    }

    /** Forwarding a new request; when nothing can be sent, all requests of the connection are to
        be rescheduled (fw/http.c:1996-2018). */
    method FwdResched(x: Req, w: World) returns (list: seq<Req>)
      requires Inv(w.nip) && x !in fwdQueue
      modifies this`fwdQueue, this`qsize, this`nipQueue, this`hasNip, this`msgSent, this`sent, this`wire, this`up
      modifies w`errors, w`freed, w`tick
      ensures Inv(w.nip) && NoDup(list) && (list != [] ==> fwdQueue == [] && w.Refused(EBUSY))
      ensures list == [] ==> Forwarded(w) && !Stuck(w)
      ensures Balance(w) + multiset(list) == old(Balance(w)) + multiset{x}
      ensures old(Wired()) ==> Wired()
      ensures Among(fwdQueue + list, old(fwdQueue) + [x])
    {
      hide Core;
      hide SentAre;
      hide NoDup;
      hide OnWire;
      hide Among;
      hide Balance;
      EmptyNoDup();
      var held, fail := Offer(x, w);
      list := [];
      if fail {
        list := Reset(w);
      }
      assert fwdQueue + list == if fail then list else fwdQueue;
    }

    lemma CoreFacts(nip: set<Req>)
      requires Core(nip)
      ensures NoDup(fwdQueue) && NoDup(nipQueue)
      ensures forall x :: x in fwdQueue && x in nip ==> x in nipQueue
    {}

    lemma CoreNoDup(nip: set<Req>)
      requires Core(nip)
      ensures NoDup(fwdQueue)
    {}
  }

  lemma Regroup(a: multiset<Req>, x: Req, out: multiset<Req>)
    ensures (a + multiset{x}) + out == (a + out) + multiset{x}
  {}

  lemma Regroup3(a: multiset<Req>, out: multiset<Req>, x: Req)
    ensures (a + out) + multiset{x} == a + (out + multiset{x})
  {}

  lemma Cancel(a: multiset<Req>, out: multiset<Req>, b: multiset<Req>, x: Req)
    requires (a + multiset{x}) + out == b + multiset{x}
    ensures a + out == b
  {
    assert (a + out) + multiset{x} == b + multiset{x};
    assert a + out == ((a + out) + multiset{x}) - multiset{x};
    assert b == (b + multiset{x}) - multiset{x};
  }

  function IndexOf(s: seq<Req>, x: Req): nat {
    if s == [] || s[0] == x then 0 else 1 + IndexOf(s[1..], x)
  }

  lemma {:induction false} IndexOfAt(s: seq<Req>, i: nat)
    requires NoDup(s) && i < |s|
    ensures IndexOf(s, s[i]) == i
  {
    if i > 0 {
      IndexOfAt(s[1..], i - 1);
    }
  }

  lemma DelAbsentOr(s: seq<Req>, x: Req)
    ensures x !in s ==> Del(s, x) == s
  {
    if x !in s { DelAbsent(s, x); }
  }
}
