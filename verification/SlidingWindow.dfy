/** Rate limits (fw/http_limits.c:273-319, 421-460, 1325-1351; fw/apm.c:1313-1333): a ring of slots,
    one for each of the last quanta of time, counts events; the sum over the slots that are not
    outdated is the number of events in the window. */
module SlidingWindow {
  import opened Powers

  /** How many of the events happened at time t, and how many in the n quanta that end with now. */
  ghost function CountAt(events: seq<nat>, t: nat): nat {
    if events == [] then 0 else CountAt(events[..|events| - 1], t) + if events[|events| - 1] == t then 1 else 0
  }

  ghost function CountLast(events: seq<nat>, now: nat, n: nat): nat {
    if events == [] then 0
    else CountLast(events[..|events| - 1], now, n) + if events[|events| - 1] + n > now then 1 else 0
  }

  lemma CountAppend(events: seq<nat>, e: nat, t: nat)
    ensures CountAt(events + [e], t) == CountAt(events, t) + if e == t then 1 else 0
  {
    assert (events + [e])[..|events|] == events;
  }

  lemma {:induction false} CountLater(events: seq<nat>, t: nat)
    requires forall i :: 0 <= i < |events| ==> events[i] < t
    ensures CountAt(events, t) == 0
  {
    if events != [] {
      CountLater(events[..|events| - 1], t);
    }
  }

  /** The sum over the slots that are not outdated. */
  ghost function SumOf(ts: seq<nat>, cnt: seq<nat>, now: nat, k: nat): nat
    requires k <= |ts| == |cnt|
  {
    if k == 0 then 0 else SumOf(ts, cnt, now, k - 1) + if ts[k - 1] + |ts| > now then cnt[k - 1] else 0
  }

  /** The slot has a time that belongs there, and not the zero it started with. */
  ghost predicate Placed(ts: seq<nat>, i: nat) {
    i < |ts| && ts[i] % |ts| == i
  }

  /** Every slot has the count of its time; an event that is not outdated is in its slot. */
  ghost predicate Right(ts: seq<nat>, cnt: seq<nat>, events: seq<nat>, now: nat) {
    && |ts| == |cnt| > 0
    && (forall i :: 0 <= i < |ts| ==> ts[i] <= now && cnt[i] == if Placed(ts, i) then CountAt(events, ts[i]) else 0)
    && (forall k :: 0 <= k < |events| ==>
        events[k] <= now && (events[k] + |ts| > now ==> ts[events[k] % |ts|] == events[k]))
  }

  /** What one event adds to the slots before k. */
  ghost function Shares(ts: seq<nat>, e: nat, now: nat, k: nat): nat
    requires k <= |ts|
  {
    if k == 0 then 0
    else Shares(ts, e, now, k - 1) + if ts[k - 1] + |ts| > now && Placed(ts, k - 1) && ts[k - 1] == e then 1 else 0
  }

  lemma {:induction false} SharesOnce(ts: seq<nat>, e: nat, now: nat, k: nat)
    requires |ts| > 0 && k <= |ts|
    ensures Shares(ts, e, now, k) == if e + |ts| > now && e % |ts| < k && ts[e % |ts|] == e then 1 else 0
  {
    if k > 0 {
      SharesOnce(ts, e, now, k - 1);
    }
  }

  /** The sum over the slots, from the events. */
  ghost function SlotsOf(ts: seq<nat>, events: seq<nat>, now: nat, k: nat): nat
    requires k <= |ts|
  {
    if k == 0 then 0
    else
      SlotsOf(ts, events, now, k - 1)
      + if ts[k - 1] + |ts| > now && Placed(ts, k - 1) then CountAt(events, ts[k - 1]) else 0
  }

  lemma {:induction false} SlotsAppend(ts: seq<nat>, events: seq<nat>, e: nat, now: nat, k: nat)
    requires k <= |ts|
    ensures SlotsOf(ts, events + [e], now, k) == SlotsOf(ts, events, now, k) + Shares(ts, e, now, k)
  {
    if k > 0 {
      SlotsAppend(ts, events, e, now, k - 1);
      CountAppend(events, e, ts[k - 1]);
    }
  }

  lemma {:induction false} SlotsNone(ts: seq<nat>, now: nat, k: nat)
    requires k <= |ts|
    ensures SlotsOf(ts, [], now, k) == 0
  {
    if k > 0 {
      SlotsNone(ts, now, k - 1);
    }
  }

  lemma {:induction false} SlotsAreLast(ts: seq<nat>, events: seq<nat>, now: nat)
    requires |ts| > 0
    requires forall k :: 0 <= k < |events| && events[k] + |ts| > now ==> ts[events[k] % |ts|] == events[k]
    ensures SlotsOf(ts, events, now, |ts|) == CountLast(events, now, |ts|)
  {
    if events == [] {
      SlotsNone(ts, now, |ts|);
    } else {
      var l, e := events[..|events| - 1], events[|events| - 1];
      assert events == l + [e];
      SlotsAreLast(ts, l, now);
      SlotsAppend(ts, l, e, now, |ts|);
      SharesOnce(ts, e, now, |ts|);
    }
  }

  lemma {:induction false} SumIsSlots(ts: seq<nat>, cnt: seq<nat>, events: seq<nat>, now: nat, k: nat)
    requires Right(ts, cnt, events, now) && k <= |ts|
    ensures SumOf(ts, cnt, now, k) == SlotsOf(ts, events, now, k)
  {
    if k > 0 {
      SumIsSlots(ts, cnt, events, now, k - 1);
    }
  }

  /** The sum over the slots is the number of events in the window. */
  lemma SumIsExact(ts: seq<nat>, cnt: seq<nat>, events: seq<nat>, now: nat)
    requires Right(ts, cnt, events, now)
    ensures SumOf(ts, cnt, now, |ts|) == CountLast(events, now, |ts|)
  {
    SumIsSlots(ts, cnt, events, now, |ts|);
    SlotsAreLast(ts, events, now);
  }

  /** Time goes on: the slot of the new time is cleared if it has another one. */
  lemma Turn(ts: seq<nat>, cnt: seq<nat>, events: seq<nat>, now: nat, t: nat)
    requires Right(ts, cnt, events, now) && now <= t
    ensures var i := t % |ts|;
            Right(ts[i := t], cnt[i := if ts[i] == t then cnt[i] else 0], events, t)
  {
    var i := t % |ts|;
    var ts', cnt' := ts[i := t], cnt[i := if ts[i] == t then cnt[i] else 0];
    if ts[i] != t {
      forall k | 0 <= k < |events| ensures events[k] < t {
        assert events[k] % |ts| == i ==> events[k] + |ts| > now ==> ts[i] == events[k];
      }
      CountLater(events, t);
    }
    forall k | 0 <= k < |events| && events[k] + |ts| > t ensures ts'[events[k] % |ts|] == events[k] {
      if events[k] % |ts| == i {
        SameSlot(events[k], t, |ts|);
      }
    }
  }

  lemma SameSlot(a: nat, b: nat, n: nat)
    requires n > 0 && a <= b < a + n && a % n == b % n
    ensures a == b
  {
    var p, q := a / n, b / n;
    DivMod(a, n);
    DivMod(b, n);
    if q > p {
      MulAtLeast(q, p + 1, n);
      MulAdd(p, 1, n);
    } else if q < p {
      MulAtLeast(p, q + 1, n);
      MulAdd(q, 1, n);
    }
  }

  /** An event is counted in the slot of the present. */
  lemma Hit(ts: seq<nat>, cnt: seq<nat>, events: seq<nat>, now: nat)
    requires Right(ts, cnt, events, now) && ts[now % |ts|] == now
    ensures Right(ts, cnt[now % |ts| := cnt[now % |ts|] + 1], events + [now], now)
  {
    var i := now % |ts|;
    var cnt' := cnt[i := cnt[i] + 1];
    forall j | 0 <= j < |ts| ensures cnt'[j] == if Placed(ts, j) then CountAt(events + [now], ts[j]) else 0 {
      CountAppend(events, now, ts[j]);
    }
  }

  /** Nothing is as old as the window is wide, once the slot of the present has been turned: the test
      with >= gives the same sum as the one with >. */
  lemma {:induction false} SameSum(ts: seq<nat>, cnt: seq<nat>, events: seq<nat>, now: nat, k: nat)
    requires Right(ts, cnt, events, now) && ts[now % |ts|] == now && k <= |ts|
    ensures SumGe(ts, cnt, now, k) == SumOf(ts, cnt, now, k)
  {
    if k > 0 {
      SameSum(ts, cnt, events, now, k - 1);
      if ts[k - 1] + |ts| == now && Placed(ts, k - 1) {
        ShiftedSlot(ts[k - 1], |ts|);
      }
    }
  }

  ghost function SumGe(ts: seq<nat>, cnt: seq<nat>, now: nat, k: nat): nat
    requires k <= |ts| == |cnt|
  {
    if k == 0 then 0 else SumGe(ts, cnt, now, k - 1) + if ts[k - 1] + |ts| >= now then cnt[k - 1] else 0
  }

  lemma ShiftedSlot(a: nat, n: nat)
    requires n > 0
    ensures (a + n) % n == a % n
  {
    var q, r := a / n, a % n;
    DivMod(a, n);
    MulAdd(q, 1, n);
    ModUnique(a + n, n, q + 1, r);
  }

  // ----- the program

  const FRANG_FREQ := 8

  /** The sum over the slots in the frame (fw/http_limits.c:449-452, fw/apm.c:1322-1324). */
  method SumFrame(ts: array<nat>, cnt: array<nat>, now: nat) returns (sum: nat)
    requires ts.Length == cnt.Length
    ensures sum == SumOf(ts[..], cnt[..], now, ts.Length)
  {
    sum := 0;
    for i := 0 to ts.Length
      invariant sum == SumOf(ts[..], cnt[..], now, i)
    {
      if ts[i] + ts.Length > now {
        sum := sum + cnt[i];
      }
    }
  }

  /** The same with the wider test of the connection limit (fw/http_limits.c:308-311). */
  method SumFrameGe(ts: array<nat>, cnt: array<nat>, now: nat) returns (sum: nat)
    requires ts.Length == cnt.Length
    ensures sum == SumGe(ts[..], cnt[..], now, ts.Length)
  {
    sum := 0;
    for i := 0 to ts.Length
      invariant sum == SumGe(ts[..], cnt[..], now, i)
    {
      if ts[i] + ts.Length >= now {
        sum := sum + cnt[i];
      }
    }
  }

  /** The connections and requests of a client. */
  class FrangAcc {
    const ts: array<nat>
    const connNew: array<nat>
    const req: array<nat>
    var connCurr: nat
    /** When connections and requests were counted, and the time of the last one. */
    ghost var conns: seq<nat>
    ghost var reqs: seq<nat>
    ghost var now: nat

    constructor ()
      ensures Valid() && conns == reqs == [] && connCurr == now == 0
      ensures fresh(ts) && fresh(connNew) && fresh(req)
    {
      ts := new nat[FRANG_FREQ](_ => 0);
      connNew := new nat[FRANG_FREQ](_ => 0);
      req := new nat[FRANG_FREQ](_ => 0);
      connCurr, conns, reqs, now := 0, [], [], 0;
    }

    ghost predicate Valid()
      reads this, ts, connNew, req
    {
      && ts != connNew && ts != req && connNew != req && ts.Length == connNew.Length == req.Length == FRANG_FREQ
      && Right(ts[..], connNew[..], conns, now) && Right(ts[..], req[..], reqs, now)
    }

    /** The slot of the present, cleared if it has another time (fw/http_limits.c:278-283, 437-441). */
    method TurnTo(t: nat) returns (i: nat)
      requires Valid() && now <= t
      modifies this`now, ts, connNew, req
      ensures Valid() && now == t && i == t % FRANG_FREQ && ts[i] == t
    {
      hide Right;
      i := t % FRANG_FREQ;
      Turn(ts[..], connNew[..], conns, now, t);
      Turn(ts[..], req[..], reqs, now, t);
      ghost var ts0, conn0, req0 := ts[..], connNew[..], req[..];
      if ts[i] != t {
        ts[i] := t;
        connNew[i] := 0;
        req[i] := 0;
      }
      assert ts[..] == ts0[i := t];
      assert connNew[..] == conn0[i := if ts0[i] == t then conn0[i] else 0];
      assert req[..] == req0[i := if ts0[i] == t then req0[i] else 0];
      now := t;
    }

    lemma Facts(cnt: array<nat>, events: seq<nat>)
      requires Valid() && ts[now % FRANG_FREQ] == now && cnt.Length == FRANG_FREQ && Right(ts[..], cnt[..], events, now)
      ensures cnt[now % FRANG_FREQ] == CountAt(events, now)
      ensures SumOf(ts[..], cnt[..], now, FRANG_FREQ) ==
        SumGe(ts[..], cnt[..], now, FRANG_FREQ) == CountLast(events, now, FRANG_FREQ)
    {
      SumIsExact(ts[..], cnt[..], events, now);
      SameSum(ts[..], cnt[..], events, now, FRANG_FREQ);
      assert Placed(ts[..], now % FRANG_FREQ);
    }

    /** A new connection (fw/http_limits.c:273-319); a limit of 0 is none. It is blocked exactly when it
        is one too many: at a time, in its quantum, or in the window. */
    method ConnLimit(t: nat, max: nat, burst: nat, rate: nat) returns (blocked: bool)
      requires Valid() && now <= t
      modifies this, ts, connNew, req
      ensures Valid() && now == t && conns == old(conns) + [t] && reqs == old(reqs) && connCurr == old(connCurr) + 1
      ensures blocked <==> (max != 0 && connCurr > max) || (burst != 0 && CountAt(conns, t) > burst)
                           || (rate != 0 && CountLast(conns, t, FRANG_FREQ) > rate)
    {
      hide Right;
      var i := TurnTo(t);
      ghost var conn0 := connNew[..];
      Hit(ts[..], connNew[..], conns, now);
      connNew[i] := connNew[i] + 1;
      assert connNew[..] == conn0[i := conn0[i] + 1];
      conns := conns + [t];
      connCurr := connCurr + 1;
      Facts(connNew, conns);
      if max != 0 && connCurr > max {
        return true;
      }
      if burst != 0 && connNew[i] > burst {
        return true;
      }
      var sum := SumFrameGe(ts, connNew, t);
      blocked := rate != 0 && sum > rate;
    }

    /** A request (fw/http_limits.c:427-460); it is not counted where there is no limit at all. */
    method ReqLimit(t: nat, burst: nat, rate: nat) returns (blocked: bool)
      requires Valid() && now <= t
      modifies this, ts, connNew, req
      ensures Valid() && conns == old(conns) && connCurr == old(connCurr)
      ensures reqs == if burst == 0 && rate == 0 then old(reqs) else old(reqs) + [t]
      ensures blocked <==>
        (burst != 0 && CountAt(reqs, t) > burst) || (rate != 0 && CountLast(reqs, t, FRANG_FREQ) > rate)
    {
      hide Right;
      if burst == 0 && rate == 0 {
        return false;
      }
      var i := TurnTo(t);
      ghost var req0 := req[..];
      Hit(ts[..], req[..], reqs, now);
      req[i] := req[i] + 1;
      assert req[..] == req0[i := req0[i] + 1];
      reqs := reqs + [t];
      Facts(req, reqs);
      if burst != 0 && req[i] > burst {
        return true;
      }
      var sum := SumFrame(ts, req, t);
      blocked := rate != 0 && sum > rate;
    }
  }

  /** Responses with a code that is watched: those of a client, with 8 slots, or of a server under health
      monitoring, with 10. */
  class CodeStat {
    const ts: array<nat>
    const cnt: array<nat>
    ghost var events: seq<nat>
    ghost var now: nat

    constructor (n: nat)
      requires n > 0
      ensures Valid() && events == [] && now == 0 && ts.Length == n && fresh(ts) && fresh(cnt)
    {
      ts := new nat[n](_ => 0);
      cnt := new nat[n](_ => 0);
      events, now := [], 0;
    }

    ghost predicate Valid()
      reads this, ts, cnt
    {
      ts != cnt && ts.Length == cnt.Length > 0 && Right(ts[..], cnt[..], events, now)
    }

    /** One more response (fw/http_limits.c:1325-1351, fw/apm.c:1313-1333): the limit is passed exactly
        when there were more in the window. */
    method CodeLimit(t: nat, limit: nat) returns (over: bool)
      requires Valid() && now <= t
      modifies this, ts, cnt
      ensures Valid() && now == t && events == old(events) + [t]
      ensures over <==> CountLast(events, t, ts.Length) > limit
    {
      hide Right;
      var i := t % ts.Length;
      ghost var ts0, cnt0 := ts[..], cnt[..];
      Turn(ts0, cnt0, events, now, t);
      if t != ts[i] {
        ts[i] := t;
        cnt[i] := 0;
      }
      now := t;
      ghost var cnt1 := cnt[..];
      assert ts[..] == ts0[i := t] && cnt1 == cnt0[i := if ts0[i] == t then cnt0[i] else 0];
      Hit(ts[..], cnt1, events, now);
      cnt[i] := cnt[i] + 1;
      assert cnt[..] == cnt1[i := cnt1[i] + 1];
      events := events + [t];
      SumIsExact(ts[..], cnt[..], events, now);
      var sum := SumFrame(ts, cnt, t);
      over := sum > limit;
    }
  }
}
