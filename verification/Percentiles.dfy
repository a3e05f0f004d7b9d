/** The percentiles over the ring of statistics (fw/apm.c:668-789): a merge over all entries, each
    of which lists its buckets by increasing response time. */
module Percentiles {
  import opened Apm
  import opened Powers

  const USHRT_MAX := 65535
  const SLOTS := 64

  /** A ring entry as it is read: the bounds of its ranges and its counters. */
  datatype Entry = Entry(ctl: seq<Ctl>, cnt: seq<seq<nat>>) {
    predicate Ok() {
      |ctl| == RANGES && |cnt| == RANGES && forall r :: 0 <= r < 4 ==> |cnt[r]| == BUCKETS
    }

    /** The buckets of all ranges in one row. */
    function Hits(i: nat): nat
      requires Ok() && i < SLOTS
    {
      cnt[i / 16][i % 16]
    }

    function Time(i: nat): nat
      requires Ok() && i < SLOTS
    {
      ctl[i / 16].Value(i % 16)
    }

    /** A bucket with hits whose response time is below the mark of a finished entry. */
    ghost predicate Fitting(i: nat)
      requires Ok() && i < SLOTS
    {
      Hits(i) > 0 ==> Time(i) < USHRT_MAX
    }

    /** The ranges are in shape, and all hits are below the mark. */
    ghost predicate Fits() {
      Ok() && Shape(ctl) && forall i :: 0 <= i < SLOTS ==> Fitting(i)
    }
  }

  lemma TimesIncrease(e: Entry, i: nat, j: nat)
    requires e.Ok() && Shape(e.ctl) && i < j < SLOTS
    ensures e.Time(i) < e.Time(j)
  {
    hide Pow2;
    var r, s := i / 16, j / 16;
    TimeInRange(e, i);
    TimeInRange(e, j);
    ShapeOrder(e.ctl);
    if r == s {
      MulAtLeast(j % 16 - i % 16, 1, Pow2(e.ctl[r].order));
      assert (j % 16) * Pow2(e.ctl[r].order)
          == (i % 16) * Pow2(e.ctl[r].order) + (j % 16 - i % 16) * Pow2(e.ctl[r].order);
    }
  }

  lemma ShapeOrder(ctl: seq<Ctl>)
    requires Shape(ctl)
    ensures ctl[0].end < ctl[1].begin <= ctl[1].end < ctl[2].begin <= ctl[2].end < ctl[3].begin <= ctl[3].end
  {
    hide Pow2;
  }

  lemma TimeInRange(e: Entry, i: nat)
    requires e.Ok() && Shape(e.ctl) && i < SLOTS
    ensures e.ctl[i / 16].begin <= e.Time(i) <= e.ctl[i / 16].end
  {
    hide Pow2;
    MulAtLeast(15, i % 16, Pow2(e.ctl[i / 16].order));
  }

  /** Where the last range ends below the mark, everything does. */
  lemma LowFits(e: Entry)
    requires e.Ok() && Shape(e.ctl) && e.ctl[3].end < USHRT_MAX
    ensures e.Fits()
  {
    ShapeOrder(e.ctl);
    forall i | 0 <= i < SLOTS ensures e.Fitting(i) {
      TimeInRange(e, i);
    }
  }

  // ----- the specification: how many hits are not above a response time

  ghost function HitsUpTo(e: Entry, x: int, n: nat): nat
    requires e.Ok() && n <= SLOTS
  {
    if n == 0 then 0 else HitsUpTo(e, x, n - 1) + if e.Time(n - 1) <= x then e.Hits(n - 1) else 0
  }

  ghost function AllHits(es: seq<Entry>, x: int): nat
    requires forall e :: e in es ==> e.Ok()
  {
    if es == [] then 0 else AllHits(es[..|es| - 1], x) + HitsUpTo(es[|es| - 1], x, SLOTS)
  }

  /** The least response time that a given number of hits do not exceed. */
  ghost predicate IsPercentile(es: seq<Entry>, v: nat, items: nat)
    requires forall e :: e in es ==> e.Ok()
  {
    AllHits(es, v) >= items && forall u :: 0 <= u < v ==> AllHits(es, u) < items
  }

  // ----- cursors

  /** A place in an entry: a bucket with hits and its response time in 16 bits, or the end. */
  datatype Cursor = Cursor(v: nat, i: nat)

  /** The cursor is at the first bucket with hits above response time u. */
  ghost predicate Above(e: Entry, c: Cursor, u: int)
    requires e.Fits()
  {
    && c.i <= SLOTS
    && (forall k :: 0 <= k < c.i && e.Hits(k) > 0 ==> e.Time(k) <= u)
    && (if c.i == SLOTS then c.v == USHRT_MAX else c.v == e.Time(c.i) > u && e.Hits(c.i) > 0)
  }

  /** The cursor is at a bucket with hits, or at the end. */
  ghost predicate At(e: Entry, c: Cursor)
    requires e.Ok()
  {
    && c.i <= SLOTS
    && if c.i == SLOTS then c.v == USHRT_MAX else c.v == e.Time(c.i) % 65536 && e.Hits(c.i) > 0
  }

  /** The next bucket with hits, its response time cut to 16 bits (fw/apm.c:688-723). */
  method NextCursor(e: Entry, from: nat) returns (c: Cursor)
    requires e.Ok() && from <= SLOTS
    ensures At(e, c) && from <= c.i && (forall k :: from <= k < c.i ==> e.Hits(k) == 0)
  {
    hide Pow2;
    var i := from;
    while i < SLOTS
      invariant from <= i <= SLOTS && forall k :: from <= k < i ==> e.Hits(k) == 0
    {
      if e.Hits(i) != 0 {
        return Cursor(e.Time(i) % 65536, i);
      }
      i := i + 1;
    }
    c := Cursor(USHRT_MAX, SLOTS);
  }

  lemma {:induction false} SameBelow(e: Entry, c: Cursor, u: int, x: int, n: nat)
    requires e.Fits() && Above(e, c, u) && u <= x && n <= c.i
    ensures HitsUpTo(e, x, n) == HitsUpTo(e, u, n)
  {
    if n > 0 {
      SameBelow(e, c, u, x, n - 1);
    }
  }

  lemma {:induction false} NothingAbove(e: Entry, x: int, i: nat, n: nat)
    requires e.Fits() && i <= n <= SLOTS && (i < SLOTS ==> e.Time(i) > x)
    ensures HitsUpTo(e, x, n) == HitsUpTo(e, x, i)
  {
    if i < n {
      NothingAbove(e, x, i, n - 1);
      if i < n - 1 {
        TimesIncrease(e, i, n - 1);
      }
    }
  }

  /** What a cursor says about the hits up to a response time not above it. */
  lemma CursorCounts(e: Entry, c: Cursor, u: int, x: int)
    requires e.Fits() && Above(e, c, u) && u <= x <= c.v
    ensures HitsUpTo(e, x, SLOTS) == HitsUpTo(e, u, SLOTS) + if c.i < SLOTS && x == c.v then e.Hits(c.i) else 0
  {
    SameBelow(e, c, u, x, c.i);
    NothingAbove(e, u, c.i, SLOTS);
    if c.i < SLOTS {
      if x == c.v {
        if c.i + 1 < SLOTS {
          TimesIncrease(e, c.i, c.i + 1);
        }
        NothingAbove(e, x, c.i + 1, SLOTS);
      } else {
        NothingAbove(e, x, c.i, SLOTS);
      }
    }
  }

  // ----- the merge

  ghost predicate AllOk(es: seq<Entry>) {
    forall e :: e in es ==> e.Ok()
  }

  ghost predicate AllFit(es: seq<Entry>) {
    forall e :: e in es ==> e.Fits()
  }

  /** The cursors of all entries are at the first bucket with hits above u. */
  ghost predicate AllAbove(es: seq<Entry>, st: seq<Cursor>, u: int)
    requires AllFit(es)
  {
    |st| == |es| && forall i :: 0 <= i < |es| ==> Above(es[i], st[i], u)
  }

  ghost predicate AllAt(es: seq<Entry>, st: seq<Cursor>)
    requires AllOk(es)
  {
    |st| == |es| && forall i :: 0 <= i < |es| ==> At(es[i], st[i])
  }

  // ----- what the merge can get at: a response time that is cut to the mark is never taken

  /** The hits from bucket i on that the merge takes. */
  ghost function Within(e: Entry, i: nat): nat
    requires e.Ok() && i <= SLOTS
    decreases SLOTS - i
  {
    if i == SLOTS || (e.Hits(i) > 0 && e.Time(i) % 65536 == USHRT_MAX) then 0 else e.Hits(i) + Within(e, i + 1)
  }

  ghost function Withins(es: seq<Entry>, st: seq<Cursor>): (ws: seq<nat>)
    requires AllOk(es) && AllAt(es, st)
    ensures |ws| == |es| && forall i :: 0 <= i < |es| ==> ws[i] == Within(es[i], st[i].i)
  {
    seq(|es|, i requires 0 <= i < |es| => Within(es[i], st[i].i))
  }

  /** All hits that the merge takes. */
  ghost function AllWithin(es: seq<Entry>): (n: nat)
    requires AllOk(es)
  {
    if es == [] then 0 else AllWithin(es[..|es| - 1]) + Within(es[|es| - 1], 0)
  }

  /** Buckets without hits do not matter. */
  lemma {:induction false} WithinSkips(e: Entry, i: nat, j: nat)
    requires e.Ok() && i <= j <= SLOTS && forall k :: i <= k < j ==> e.Hits(k) == 0
    ensures Within(e, i) == Within(e, j)
    decreases j - i
  {
    if i < j {
      WithinSkips(e, i + 1, j);
    }
  }

  lemma {:induction false} WithinStarts(es: seq<Entry>, st: seq<Cursor>, n: nat)
    requires AllOk(es) && AllAt(es, st) && n <= |es|
    requires forall i, k :: 0 <= i < |es| && 0 <= k < st[i].i ==> es[i].Hits(k) == 0
    ensures Sum(Withins(es, st)[..n]) == AllWithin(es[..n])
  {
    if n > 0 {
      WithinStarts(es, st, n - 1);
      assert es[..n][..n - 1] == es[..n - 1];
      WithinSkips(es[n - 1], 0, st[n - 1].i);
      SumNext(Withins(es, st), n - 1);
    }
  }

  /** How many buckets are left. */
  ghost function Steps(st: seq<Cursor>): (n: nat)
    requires forall i :: 0 <= i < |st| ==> st[i].i <= SLOTS
  {
    if st == [] then 0 else Steps(st[..|st| - 1]) + SLOTS - st[|st| - 1].i
  }

  lemma {:induction false} StepsFewer(a: seq<Cursor>, b: seq<Cursor>)
    requires |a| == |b| && forall i :: 0 <= i < |a| ==> a[i].i <= b[i].i <= SLOTS
    ensures Steps(b) <= Steps(a) && ((exists i :: 0 <= i < |a| && a[i].i < b[i].i) ==> Steps(b) < Steps(a))
  {
    if a != [] {
      var n := |a| - 1;
      StepsFewer(a[..n], b[..n]);
      if exists i :: 0 <= i < |a| && a[i].i < b[i].i {
        var i :| 0 <= i < |a| && a[i].i < b[i].i;
        assert i < n ==> a[..n][i].i < b[..n][i].i;
      }
    }
  }

  /** fw/apm.c:742-746 */
  method Cursors(es: seq<Entry>) returns (st: array<Cursor>)
    requires AllOk(es)
    ensures fresh(st) && AllAt(es, st[..]) && Sum(Withins(es, st[..])) == AllWithin(es)
    ensures AllFit(es) ==> AllAbove(es, st[..], -1)
  {
    hide Within;
    hide Entry.Time;
    hide Entry.Hits;
    st := new Cursor[|es|](_ => Cursor(0, 0));
    for i := 0 to |es|
      invariant forall k :: 0 <= k < i ==> At(es[k], st[k]) && forall j :: 0 <= j < st[k].i ==> es[k].Hits(j) == 0
    {
      var c := NextCursor(es[i], 0);
      st[i] := c;
    }
    WithinStarts(es, st[..], |es|);
    assert es[..|es|] == es && Withins(es, st[..])[..|es|] == Withins(es, st[..]);
    if AllFit(es) {
      forall k | 0 <= k < |es| ensures Above(es[k], st[k], -1) {
        assert es[k].Fits();
        AboveStart(es[k], st[k]);
      }
    }
  }

  lemma AboveStart(e: Entry, c: Cursor)
    requires e.Fits() && At(e, c) && forall j :: 0 <= j < c.i ==> e.Hits(j) == 0
    ensures Above(e, c, -1)
  {
    if c.i < SLOTS { assert e.Fitting(c.i); }
  }

  /** The least response time under a cursor (fw/apm.c:754-758). */
  method Least(st: array<Cursor>) returns (v: nat)
    ensures v <= USHRT_MAX && forall i :: 0 <= i < st.Length ==> v <= st[i].v || st[i].v >= USHRT_MAX
    ensures v < USHRT_MAX ==> exists i :: 0 <= i < st.Length && st[i].v == v
  {
    v := USHRT_MAX;
    for i := 0 to st.Length
      invariant v <= USHRT_MAX && forall k :: 0 <= k < i ==> v <= st[k].v || st[k].v >= USHRT_MAX
      invariant v < USHRT_MAX ==> exists k :: 0 <= k < i && st[k].v == v
    {
      if st[i].v < v {
        v := st[i].v;
      }
    }
  }

  lemma AllHitsNext(es: seq<Entry>, i: nat, x: int)
    requires AllOk(es) && i < |es|
    ensures AllHits(es[..i + 1], x) == AllHits(es[..i], x) + HitsUpTo(es[i], x, SLOTS)
  {
    assert es[..i + 1][..i] == es[..i];
  }

  lemma NoHits(es: seq<Entry>, x: int)
    requires AllOk(es)
    ensures AllHits(es[..0], x) == 0
  {}

  /** The hits of one entry with the least response time. */
  method TakeOne(e: Entry, c: Cursor, v: nat, ghost u: int) returns (hits: nat, d: Cursor)
    requires e.Ok() && At(e, c) && v < USHRT_MAX
    ensures At(e, d) && c.i <= d.i <= SLOTS && (c.v == v ==> c.i < d.i) && hits + Within(e, d.i) == Within(e, c.i)
    ensures e.Fits() && Above(e, c, u) && u < v <= c.v ==>
      Above(e, d, v) && HitsUpTo(e, v, SLOTS) == HitsUpTo(e, u, SLOTS) + hits
  {
    hide HitsUpTo;
    hide Entry.Time;
    hide Entry.Hits;
    hide Entry.Fits;
    hide Above;
    if e.Fits() && Above(e, c, u) && u < v <= c.v {
      CursorCounts(e, c, u, v);
      AboveFacts(e, c, u);
    }
    if c.v == v {
      hits := e.Hits(c.i);
      d := NextCursor(e, c.i + 1);
      WithinSkips(e, c.i + 1, d.i);
      if e.Fits() && Above(e, c, u) {
        AboveNext(e, c, u, d);
      }
    } else {
      hits, d := 0, c;
      if e.Fits() && Above(e, c, u) && u < v < c.v {
        AboveStays(e, c, u, v);
      }
    }
  }

  /** Taking the hits with the least response time (fw/apm.c:760-766). */
  method Take(es: seq<Entry>, st: array<Cursor>, v: nat, ghost u: int, cnt0: nat, ghost fit: bool) returns (cnt: nat)
    requires AllOk(es) && AllAt(es, st[..]) && v < USHRT_MAX && exists i :: 0 <= i < st.Length && st[i].v == v
    requires fit ==> AllFit(es) && AllAbove(es, st[..], u) && u < v && cnt0 == AllHits(es, u)
    requires forall i :: 0 <= i < st.Length ==> v <= st[i].v
    modifies st
    ensures AllAt(es, st[..]) && Steps(st[..]) < old(Steps(st[..]))
    ensures cnt >= cnt0 && cnt + Sum(Withins(es, st[..])) == cnt0 + old(Sum(Withins(es, st[..])))
    ensures fit ==> AllAbove(es, st[..], v) && cnt == AllHits(es, v)
  {
    hide HitsUpTo;
    hide Above;
    hide At;
    hide AllHits;
    hide Within;
    hide Steps;
    hide Sum;
    cnt := cnt0;
    if fit {
      NoHits(es, u);
      NoHits(es, v);
    }
    ghost var was := st[..];
    for i := 0 to |es|
      invariant AllAt(es, st[..]) && cnt >= cnt0
      invariant cnt + Sum(Withins(es, st[..])) == cnt0 + Sum(Withins(es, was))
      invariant forall k :: 0 <= k < i ==> was[k].i <= st[k].i && (was[k].v == v ==> was[k].i < st[k].i)
      invariant forall k :: i <= k < |es| ==> st[k] == was[k]
      invariant fit ==> forall k :: 0 <= k < i ==> Above(es[k], st[k], v)
      invariant fit ==> cnt + AllHits(es[..i], u) == AllHits(es[..i], v) + cnt0
    {
      if fit {
        AllHitsNext(es, i, u);
        AllHitsNext(es, i, v);
        assert es[i].Fits() && Above(es[i], was[i], u);
      }
      var hits, c := TakeOne(es[i], st[i], v, u);
      ghost var ws := Withins(es, st[..]);
      SumUpdate(ws, i, Within(es[i], c.i));
      cnt := cnt + hits;
      st[i] := c;
      assert Withins(es, st[..]) == ws[i := Within(es[i], c.i)];
    }
    assert es[..|es|] == es;
    AllAtEnds(es, st[..]);
    StepsFewer(was, st[..]);
  }

  lemma AllAtEnds(es: seq<Entry>, st: seq<Cursor>)
    requires AllOk(es) && AllAt(es, st)
    ensures forall i :: 0 <= i < |st| ==> st[i].i <= SLOTS && st[i].v <= USHRT_MAX
  {}

  lemma AboveFacts(e: Entry, c: Cursor, u: int)
    requires e.Fits() && Above(e, c, u)
    ensures c.i <= SLOTS && (c.i == SLOTS <==> c.v == USHRT_MAX)
  {
    if c.i < SLOTS {
      assert e.Fitting(c.i);
    }
  }

  lemma AboveStays(e: Entry, c: Cursor, u: int, v: int)
    requires e.Fits() && Above(e, c, u) && u <= v < c.v
    ensures Above(e, c, v)
  {}

  lemma AboveNext(e: Entry, c: Cursor, u: int, d: Cursor)
    requires e.Fits() && Above(e, c, u) && c.i < d.i && At(e, d) && forall k :: c.i < k < d.i ==> e.Hits(k) == 0
    ensures Above(e, d, c.v)
  {
    hide Entry.Time;
    hide Entry.Hits;
    if d.i < SLOTS {
      assert e.Fitting(d.i);
      TimesIncrease(e, c.i, d.i);
    }
  }

  lemma {:induction false} HitsMonotone(e: Entry, x: int, y: int, n: nat)
    requires e.Ok() && n <= SLOTS && x <= y
    ensures HitsUpTo(e, x, n) <= HitsUpTo(e, y, n)
  {
    if n > 0 {
      HitsMonotone(e, x, y, n - 1);
    }
  }

  lemma {:induction false} AllHitsMonotone(es: seq<Entry>, x: int, y: int)
    requires AllOk(es) && x <= y
    ensures AllHits(es, x) <= AllHits(es, y)
  {
    if es != [] {
      AllHitsMonotone(es[..|es| - 1], x, y);
      HitsMonotone(es[|es| - 1], x, y, SLOTS);
    }
  }

  /** No hit is below 0. */
  lemma {:induction false} HitsBelow(e: Entry, n: nat)
    requires e.Ok() && n <= SLOTS
    ensures HitsUpTo(e, -1, n) == 0
  {
    if n > 0 {
      HitsBelow(e, n - 1);
    }
  }

  lemma {:induction false} AllHitsBelow(es: seq<Entry>)
    requires AllOk(es)
    ensures AllHits(es, -1) == 0
  {
    if es != [] {
      AllHitsBelow(es[..|es| - 1]);
      HitsBelow(es[|es| - 1], SLOTS);
    }
  }

  /** When all cursors are at the end or at a response time that is cut to the mark, the merge has
      taken all it can. */
  lemma {:induction false} AllTaken(es: seq<Entry>, st: seq<Cursor>, n: nat)
    requires AllOk(es) && AllAt(es, st) && n <= |es| && forall i :: 0 <= i < |st| ==> st[i].v >= USHRT_MAX
    ensures Sum(Withins(es, st)[..n]) == 0
  {
    if n > 0 {
      AllTaken(es, st, n - 1);
      SumNext(Withins(es, st), n - 1);
    }
  }

  /** How many hits a percentile needs (fw/apm.c:748-749). */
  function Items(total: nat, ith: nat): nat {
    total * ith / 100
  }

  lemma ItemsMonotone(total: nat, a: nat, b: nat)
    requires a <= b
    ensures Items(total, a) <= Items(total, b)
  {
    MulAtLeast(b, a, total);
  }

  lemma ItemsAtMost(total: nat, ith: nat)
    requires ith <= 100
    ensures Items(total, ith) <= total
  {
    MulAtLeast(100, ith, total);
  }

  ghost predicate Increasing(s: seq<nat>) {
    forall i, j :: 0 <= i <= j < |s| ==> s[i] <= s[j]
  }

  /** The hits taken are enough for the percentiles found so far, and too few for the next one. */
  ghost predicate Enough(items: seq<nat>, val: seq<nat>, cnt: nat) {
    && |val| <= |items| && (forall p :: 0 <= p < |val| ==> items[p] <= cnt)
    && (|val| < |items| ==> items[|val|] > cnt)
  }

  /** A response time of a bucket with hits, cut to 16 bits. */
  ghost predicate IsCut(es: seq<Entry>, v: nat)
    requires AllOk(es)
  {
    exists k, i :: 0 <= k < |es| && 0 <= i < SLOTS && es[k].Hits(i) > 0 && v == es[k].Time(i) % 65536
  }

  /** What a percentile is in any case: a response time below the mark, cut to 16 bits, if it needs hits. */
  ghost predicate AllCut(es: seq<Entry>, items: seq<nat>, val: seq<nat>)
    requires AllOk(es) && |val| <= |items|
  {
    forall p :: 0 <= p < |val| ==> val[p] < USHRT_MAX && (items[p] > 0 ==> IsCut(es, val[p]))
  }

  ghost predicate AllRight(es: seq<Entry>, items: seq<nat>, val: seq<nat>)
    requires AllOk(es) && |val| <= |items|
  {
    forall p :: 0 <= p < |val| ==> IsPercentile(es, val[p], items[p])
  }

  /** The percentiles that the hits up to v are enough for (fw/apm.c:767-768). */
  method Assign(es: seq<Entry>, items: seq<nat>, val0: seq<nat>, v: nat, cnt: nat, ghost u: int, ghost fit: bool)
      returns (val: seq<nat>)
    requires AllOk(es) && Increasing(items) && v < USHRT_MAX && IsCut(es, v)
    requires |val0| <= |items| && (forall p :: 0 <= p < |val0| ==> items[p] <= cnt) && AllCut(es, items, val0)
    requires fit ==> cnt == AllHits(es, v) && AllHits(es, v - 1) == AllHits(es, u)
    requires fit ==> AllRight(es, items, val0) && (|val0| < |items| ==> items[|val0|] > AllHits(es, u))
    ensures Enough(items, val, cnt) && AllCut(es, items, val) && (fit ==> AllRight(es, items, val))
  {
    hide AllHits;
    hide IsCut;
    val := val0;
    while |val| < |items| && items[|val|] <= cnt
      invariant |val0| <= |val| <= |items| && AllCut(es, items, val) && (fit ==> AllRight(es, items, val))
      invariant forall p :: 0 <= p < |val| ==> items[p] <= cnt
      decreases |items| - |val|
    {
      if fit {
        forall x | 0 <= x < v ensures AllHits(es, x) < items[|val|] {
          AllHitsMonotone(es, x, v - 1);
        }
      }
      val := val + [v];
    }
  }

  /** Nothing lies between the hits taken and the least response time left. */
  lemma {:induction false} Gap(es: seq<Entry>, st: seq<Cursor>, u: int, v: int)
    requires AllFit(es) && AllAbove(es, st, u) && u < v <= USHRT_MAX && forall i :: 0 <= i < |st| ==> v <= st[i].v
    ensures AllHits(es, v - 1) == AllHits(es, u)
  {
    if es != [] {
      var n := |es| - 1;
      Gap(es[..n], st[..n], u, v);
      CursorCounts(es[n], st[n], u, v - 1);
    }
  }

  /** Percentiles that need no hit at all (fw/apm.c:748-752). */
  method Zero(es: seq<Entry>, items: seq<nat>) returns (val: seq<nat>)
    requires AllOk(es) && Increasing(items)
    ensures Enough(items, val, 0) && AllCut(es, items, val) && AllRight(es, items, val)
  {
    hide AllHits;
    hide IsCut;
    val := [];
    for i := 0 to |items|
      invariant |val| <= i && (|val| < i ==> items[|val|] > 0)
      invariant forall p :: 0 <= p < |val| ==> val[p] == 0 && items[p] == 0
    {
      assert |val| < i ==> items[|val|] <= items[i];
      if items[i] == 0 {
        val := val + [0];
      }
    }
  }

  lemma LeastIsAbove(es: seq<Entry>, st: seq<Cursor>, u: int, v: nat)
    requires AllFit(es) && AllAbove(es, st, u) && v < USHRT_MAX
    requires exists i :: 0 <= i < |st| && st[i].v == v
    ensures u < v
  {
    var i :| 0 <= i < |st| && st[i].v == v;
    assert Above(es[i], st[i], u);
  }

  lemma LeastIsCut(es: seq<Entry>, st: seq<Cursor>, v: nat)
    requires AllOk(es) && AllAt(es, st) && v < USHRT_MAX && exists i :: 0 <= i < |st| && st[i].v == v
    ensures IsCut(es, v)
  {
    var i :| 0 <= i < |st| && st[i].v == v;
    assert At(es[i], st[i]) && es[i].Hits(st[i].i) > 0;
  }

  function Shares(total: nat, ith: seq<nat>): (items: seq<nat>)
    ensures |items| == |ith| && forall p :: 0 <= p < |ith| ==> items[p] == Items(total, ith[p])
  {
    seq(|ith|, p requires 0 <= p < |ith| => Items(total, ith[p]))
  }

  lemma SharesIncrease(total: nat, ith: seq<nat>)
    requires Increasing(ith)
    ensures Increasing(Shares(total, ith))
  {
    hide Items;
    forall p, q | 0 <= p <= q < |ith| ensures Items(total, ith[p]) <= Items(total, ith[q]) {
      ItemsMonotone(total, ith[p], ith[q]);
    }
  }

  /** The percentiles (fw/apm.c:728-769). The BUG_ON is met if and only if the last one asks for more hits
      than the merge can take. Where all hits are below the mark, each percentile is the least response
      time that its share of the hits does not exceed. */
  method Calc(es: seq<Entry>, total: nat, ith: seq<nat>) returns (bug: bool, val: seq<nat>)
    requires AllOk(es) && Increasing(ith)
    ensures bug <==> ith != [] && Items(total, ith[|ith| - 1]) > AllWithin(es)
    ensures !bug ==> |val| == |ith| && AllCut(es, Shares(total, ith), val)
    ensures !bug && AllFit(es) ==> AllRight(es, Shares(total, ith), val)
  {
    hide AllHits;
    hide Items;
    hide Above;
    hide At;
    hide Steps;
    hide Sum;
    hide AllWithin;
    hide Withins;
    hide AllCut;
    hide AllRight;
    hide IsCut;
    hide AllFit;
    var st := Cursors(es);
    var items := Shares(total, ith);
    SharesIncrease(total, ith);
    hide Shares;
    val := Zero(es, items);
    AllHitsBelow(es);
    var cnt: nat := 0;
    ghost var u: int := -1;
    ghost var fit := AllFit(es);
    AllAtEnds(es, st[..]);
    while |val| < |items|
      invariant AllAt(es, st[..]) && st.Length == |es| && cnt + Sum(Withins(es, st[..])) == AllWithin(es)
      invariant forall i :: 0 <= i < st.Length ==> st[i].i <= SLOTS && st[i].v <= USHRT_MAX
      invariant Enough(items, val, cnt) && AllCut(es, items, val)
      invariant fit ==> AllAbove(es, st[..], u) && AllRight(es, items, val) && cnt == AllHits(es, u)
      decreases Steps(st[..])
    {
      var v := Least(st);
      if v == USHRT_MAX {
        AllTaken(es, st[..], |es|);
        assert Withins(es, st[..])[..|es|] == Withins(es, st[..]);
        assert items[|val|] <= items[|items| - 1];
        return true, val;
      }
      LeastIsCut(es, st[..], v);
      if fit {
        LeastIsAbove(es, st[..], u, v);
        Gap(es, st[..], u, v);
      }
      cnt := Take(es, st, v, u, cnt, fit);
      val := Assign(es, items, val, v, cnt, u, fit);
      AllAtEnds(es, st[..]);
      u := v;
    }
    assert ith != [] ==> items[|items| - 1] <= cnt;
    bug := false;
  }

  ghost function Flat(e: Entry): (f: seq<nat>)
    requires e.Ok()
    ensures |f| == SLOTS && forall i :: 0 <= i < SLOTS ==> f[i] == e.Hits(i)
  {
    e.cnt[0] + e.cnt[1] + e.cnt[2] + e.cnt[3]
  }

  /** All counters of an entry together. */
  ghost function Counters(e: Entry): nat
    requires e.Ok()
  {
    Sum(e.cnt[0]) + Sum(e.cnt[1]) + Sum(e.cnt[2]) + Sum(e.cnt[3])
  }

  ghost function AllCounters(es: seq<Entry>): nat
    requires AllOk(es)
  {
    if es == [] then 0 else AllCounters(es[..|es| - 1]) + Counters(es[|es| - 1])
  }

  // ----- when the percentiles are right

  /** The hits up to a response time are among the counters, and are all of them if and only if there are
      none above it. */
  lemma {:induction false} HitsOfCounters(e: Entry, x: int, n: nat)
    requires e.Ok() && n <= SLOTS
    ensures HitsUpTo(e, x, n) <= Sum(Flat(e)[..n])
    ensures HitsUpTo(e, x, n) == Sum(Flat(e)[..n]) <==> forall i :: 0 <= i < n && e.Hits(i) > 0 ==> e.Time(i) <= x
  {
    hide Entry.Time;
    hide Entry.Hits;
    if n > 0 {
      HitsOfCounters(e, x, n - 1);
      SumNext(Flat(e), n - 1);
    }
  }

  lemma FlatCounts(e: Entry)
    requires e.Ok()
    ensures Sum(Flat(e)[..SLOTS]) == Counters(e)
  {
    assert Flat(e)[..SLOTS] == Flat(e);
    SumAppend(e.cnt[0] + e.cnt[1] + e.cnt[2], e.cnt[3]);
    SumAppend(e.cnt[0] + e.cnt[1], e.cnt[2]);
    SumAppend(e.cnt[0], e.cnt[1]);
  }

  lemma {:induction false} AllHitsOfCounters(es: seq<Entry>, x: int)
    requires AllOk(es)
    ensures AllHits(es, x) <= AllCounters(es)
    ensures AllHits(es, x) == AllCounters(es) <==>
      forall e, i :: e in es && 0 <= i < SLOTS && e.Hits(i) > 0 ==> e.Time(i) <= x
  {
    hide Entry.Time;
    hide Entry.Hits;
    hide HitsUpTo;
    hide Counters;
    if es != [] {
      var n := |es| - 1;
      AllHitsOfCounters(es[..n], x);
      HitsOfCounters(es[n], x, SLOTS);
      FlatCounts(es[n]);
      assert forall e :: e in es <==> e in es[..n] || e == es[n];
    }
  }

  /** Where all hits are below the mark, the merge can take all of them. */
  lemma {:induction false} WithinAll(e: Entry, i: nat)
    requires e.Fits() && i <= SLOTS
    ensures Within(e, i) == Sum(Flat(e)[i..])
    decreases SLOTS - i
  {
    if i < SLOTS {
      assert e.Fitting(i);
      WithinAll(e, i + 1);
      assert Flat(e)[i..][1..] == Flat(e)[i + 1..];
    }
  }

  lemma {:induction false} AllWithinAll(es: seq<Entry>)
    requires AllFit(es)
    ensures AllWithin(es) == AllCounters(es)
  {
    if es != [] {
      var e := es[|es| - 1];
      AllWithinAll(es[..|es| - 1]);
      WithinAll(e, 0);
      FlatCounts(e);
      assert Flat(e)[0..] == Flat(e)[..SLOTS];
    }
  }

  ghost predicate AllShaped(es: seq<Entry>) {
    forall e :: e in es ==> e.Ok() && Shape(e.ctl)
  }

  /** A response time below the mark is not the largest one where there are hits at the mark or above. */
  lemma CutIsWrong(es: seq<Entry>, v: nat)
    requires AllShaped(es) && v < USHRT_MAX && !AllFit(es)
    ensures !IsPercentile(es, v, AllCounters(es))
  {
    var e :| e in es && !e.Fits();
    var i :| 0 <= i < SLOTS && !e.Fitting(i);
    AllHitsOfCounters(es, v);
  }

  /** The percentiles for a total that is not above the counters. Where all hits are below the mark they are
      right, and the BUG_ON is out of reach. Where the last one is the largest of all response times, they
      are right if and only if all hits are below the mark. */
  method Percentile(es: seq<Entry>, total: nat, ith: seq<nat>) returns (bug: bool, val: seq<nat>)
    requires AllShaped(es) && Increasing(ith) && (forall p :: 0 <= p < |ith| ==> ith[p] <= 100)
    requires total <= AllCounters(es)
    ensures !bug ==> |val| == |ith|
    ensures AllFit(es) ==> !bug && AllRight(es, Shares(total, ith), val)
    ensures ith != [] && ith[|ith| - 1] == 100 && total == AllCounters(es) ==>
      (AllFit(es) <==> !bug && AllRight(es, Shares(total, ith), val))
  {
    hide AllFit;
    hide AllHits;
    hide Items;
    bug, val := Calc(es, total, ith);
    if ith != [] {
      ItemsAtMost(total, ith[|ith| - 1]);
      if ith[|ith| - 1] == 100 {
        ItemsOfAll(total);
      }
    }
    if AllFit(es) {
      AllWithinAll(es);
    } else if !bug && ith != [] && ith[|ith| - 1] == 100 && total == AllCounters(es) {
      CutIsWrong(es, val[|ith| - 1]);
    }
  }

  lemma ItemsOfAll(total: nat)
    ensures Items(total, 100) == total
  {}

  /** An entry with a single hit. */
  ghost predicate Lone(e: Entry, i: nat) {
    e.Ok() && i < SLOTS && e.Hits(i) == 1 && forall k :: 0 <= k < SLOTS && k != i ==> e.Hits(k) == 0
  }

  /** What the merge makes of it, and what the percentile is. */
  lemma LoneHit(e: Entry, i: nat)
    requires Lone(e, i) && Counters(e) == 1
    ensures AllWithin([e]) == if e.Time(i) % 65536 == USHRT_MAX then 0 else 1
    ensures forall v :: IsCut([e], v) ==> v == e.Time(i) % 65536
    ensures IsPercentile([e], e.Time(i), 1)
  {
    hide Entry.Time;
    hide Entry.Hits;
    hide Counters;
    hide HitsUpTo;
    var es := [e];
    assert es[..0] == [];
    WithinSkips(e, 0, i);
    WithinSkips(e, i + 1, SLOTS);
    assert AllCounters(es) == 1;
    AllHitsOfCounters(es, e.Time(i));
    forall u | 0 <= u < e.Time(i) ensures AllHits(es, u) < 1 {
      AllHitsOfCounters(es, u);
      assert e in es && e.Hits(i) > 0;
    }
  }

  lemma LateEntry(e: Entry)
    requires e.ctl == InitialCtl()[3 := Ctl(13, 109, 122989)]
    requires e.cnt == [Zeros(16), Zeros(16), Zeros(16), Zeros(16)[8 := 1]]
    ensures e.Ok() && Lone(e, 56) && e.Time(56) == 65645
  {
    hide Pow2;
    LateRange();
    assert e.Ok() && e.ctl[3] == Ctl(13, 109, 122989);
    forall k | 0 <= k < SLOTS && k != 56 ensures e.Hits(k) == 0 {
      if k / 16 == 3 { assert k % 16 != 8; }
    }
  }

  /** A single response of 65535 ms in a fresh entry: it is counted at 65645 ms, which is what the
      percentile should be, and 109 ms are reported. */
  method LateIsCut() returns (es: seq<Entry>, bug: bool, val: seq<nat>)
    ensures AllOk(es) && AllCounters(es) == 1 && IsPercentile(es, 65645, 1) && !bug && val == [109]
  {
    hide IsCut;
    hide IsPercentile;
    hide Sum;
    hide Lone;
    hide Entry.Time;
    hide AllWithin;
    hide InitialCtl;
    hide Zeros;
    hide Shape;
    var rng := FirstIsLate();
    var e := Entry(rng.ctl, [rng.cnt[0][..], rng.cnt[1][..], rng.cnt[2][..], rng.cnt[3][..]]);
    assert e.cnt == rng.Contents();
    LateEntry(e);
    assert Counters(e) == rng.Total();
    LoneHit(e, 56);
    es := [e];
    assert es[..0] == [];
    assert Items(1, 100) == 1 && Shares(1, [100])[0] == 1;
    bug, val := Calc(es, 1, [100]);
    assert IsCut(es, val[0]);
  }
}
