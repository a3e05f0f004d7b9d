/** The ring of statistics over a window of time (fw/apm.c:791-921, 986-1018, 1049-1061): entries that are
    cleared when their interval comes round again, and the total of their hits, which is kept up to
    date step by step and says how many hits the percentiles are shares of. Requests, the application of
    their response times and the timer are steps one after the other. */
module ApmRing {
  import opened Apm
  import opened Percentiles
  import opened Powers

  /** Response times up to this one keep all ranges below the mark of a finished entry. */
  const MAX_TIME := 32767

  class Ring {
    const rs: seq<Ranges>
    const interval: nat
    const window: nat
    /** The interval of every entry. */
    var stamps: seq<nat>
    /** The start of the window the percentiles are for, the hits of its last entry and all hits. */
    var windowStart: int
    var entryCnt: nat
    var totalCnt: nat
    /** The latest time anything was done. */
    ghost var latest: nat

    function Start(t: nat): nat
      requires interval > 0
    {
      t - t % interval
    }

    function At(t: nat): nat
      requires interval > 0 && rs != []
    {
      t / interval % |rs|
    }

    ghost predicate Apart() {
      rs != [] && interval > 0 && Separate(rs)
    }

    ghost function Cells(): set<object> {
      set i, r | 0 <= i < |rs| && 0 <= r < |rs[i].cnt| :: rs[i].cnt[r]
    }

    /** The hits of an entry are in its buckets, and its ranges are in shape. */
    ghost predicate Good(i: nat)
      requires Apart() && i < |rs|
      reads rs[i], rs[i].cnt
    {
      rs[i].Valid() && rs[i].Total() == rs[i].totCnt
    }

    /** All ranges end below the mark of a finished entry. */
    ghost predicate Low()
      reads rs
    {
      forall i :: 0 <= i < |rs| ==> |rs[i].ctl| == RANGES && rs[i].ctl[3].end < USHRT_MAX
    }

    ghost predicate Valid()
      reads this, rs, Cells()
    {
      && Apart() && |stamps| == |rs|
      && (forall i :: 0 <= i < |rs| ==> Good(i))
      && Counted(Tots())
    }

    ghost function Tots(): (ts: seq<nat>)
      reads rs
      ensures |ts| == |rs| && forall i :: 0 <= i < |rs| ==> ts[i] == rs[i].totCnt
    {
      TotsOf(rs)
    }

    /** The interval the totals are of. */
    ghost function Current(): int
      reads this
    {
      windowStart + window
    }

    /** The totals are not above the hits there are, as long as the interval lasts. */
    ghost predicate Counted(ts: seq<nat>)
      requires interval > 0 && rs != []
      reads this
    {
      && Current() <= Start(latest)
      && (Current() == Start(latest) ==>
          var c := At(latest);
          && c < |stamps| && c < |ts| && stamps[c] == Current()
          && entryCnt <= ts[c] && entryCnt <= totalCnt <= Sum(ts) - ts[c] + entryCnt)
    }

    /** A fresh ring (fw/apm.c:1145-1147), made after the first window of time has passed. */
    constructor (rs0: seq<Ranges>, interval0: nat, window0: nat, ghost now: nat)
      requires rs0 != [] && interval0 > 0 && now >= window0 + interval0 && Separate(rs0)
      requires forall i :: 0 <= i < |rs0| ==>
        rs0[i].ctl == InitialCtl() && rs0[i].Total() == rs0[i].totCnt == 0
      ensures Valid() && Low() && rs == rs0 && interval == interval0 && window == window0 && latest == now
    {
      rs, interval, window := rs0, interval0, window0;
      stamps := seq(|rs0|, _ => 0);
      windowStart, entryCnt, totalCnt, latest := 0, 0, 0, now;
      new;
      hide Ranges.Total;
      InitialShape();
      assert InitialCtl()[3].end == 349;
      hide Shape;
      hide InitialCtl;
      assert now % interval < interval;
    }

    /** An entry whose interval is another one is cleared (fw/apm.c:791-821). */
    method CheckReset(i: nat, start: nat)
      requires Apart() && |stamps| == |rs| && i < |rs| && (forall k :: 0 <= k < |rs| ==> Good(k))
      modifies this`stamps, rs[i], rs[i].cnt
      ensures stamps == old(stamps)[i := start] && (forall k :: 0 <= k < |rs| ==> Good(k))
      ensures Tots() == if old(stamps[i]) == start then old(Tots()) else old(Tots())[i := 0]
      ensures rs[i].ctl == old(rs[i].ctl)
    {
      hide Ranges.Total;
      hide Shape;
      hide TotsOf;
      if stamps[i] != start {
        rs[i].Reset();
        stamps := stamps[i := start];
      }
      assert stamps == old(stamps)[i := start];
    }

    /** A response that came at t is to be counted (fw/apm.c:1049-1061): its entry is made ready. A time of
        the past is that of an entry that is ready. */
    method Touch(t: nat)
      requires Valid() && (t >= latest || stamps[At(t)] == Start(t))
      modifies this`stamps, this`latest, rs[At(t)], rs[At(t)].cnt
      ensures Valid() && stamps[At(t)] == Start(t) && latest == if t >= old(latest) then t else old(latest)
      ensures totalCnt == old(totalCnt) && (old(Low()) ==> Low())
    {
      hide Good;
      hide Separate;
      hide TotsOf;
      hide Sum;
      if t >= latest { Later(latest, t, interval); }
      ghost var ready := stamps[At(t)] == Start(t);
      CheckReset(At(t), Start(t));
      if t > latest { latest := t; }
      if ready {
        assert stamps == old(stamps) && Tots() == old(Tots());
      } else {
        assert Current() < Start(t) == Start(latest);
      }
    }

    /** A response time is counted in an entry (fw/apm.c:1004-1011). */
    method Apply(i: nat, rtt: nat) returns (bug: bool)
      requires Valid() && i < |rs| && Good(i) && rs[i].totCnt < TWO32
      modifies rs[i], rs[i].cnt
      ensures bug <==> rtt > old(rs[i].ctl[3].end) && ExtendedEnd(old(rs[i].ctl[3]), rtt) >= TWO32
      ensures rtt <= TWO32 / 2 ==> !bug
      ensures !bug ==> Valid() && Tots() == old(Tots())[i := old(Tots()[i]) + 1]
      ensures rtt <= MAX_TIME && old(Low()) ==> Low()
    {
      hide TotsOf;
      hide Sum;
      hide Shape;
      hide Ranges.Total;
      hide Ranges.Contents;
      hide CountedIn;
      hide ExtendedEnd;
      bug := Hit(i, rtt);
      if bug {
        return;
      }
      assert Tots() == old(Tots())[i := old(Tots()[i]) + 1];
      SumUpdate(old(Tots()), i, old(Tots()[i]) + 1);
    }

    method Hit(i: nat, rtt: nat) returns (bug: bool)
      requires Apart() && i < |rs| && (forall k :: 0 <= k < |rs| ==> Good(k)) && Good(i) && rs[i].totCnt < TWO32
      modifies rs[i], rs[i].cnt
      ensures bug <==> rtt > old(rs[i].ctl[3].end) && ExtendedEnd(old(rs[i].ctl[3]), rtt) >= TWO32
      ensures rtt <= TWO32 / 2 ==> !bug
      ensures !bug ==> (forall k :: 0 <= k < |rs| ==> Good(k)) && rs[i].totCnt == old(rs[i].totCnt) + 1
      ensures rtt <= MAX_TIME && old(rs[i].ctl[3].end) < USHRT_MAX ==>
        |rs[i].ctl| == RANGES && rs[i].ctl[3].end < USHRT_MAX
    {
      hide Sum;
      hide Ranges.Total;
      hide Ranges.Contents;
      hide CountedIn;
      hide ExtendedEnd;
      assert Good(i);
      LastScaled(rs[i].ctl);
      hide Shape;
      hide Ctl.Scaled;
      ghost var ctl, rows := rs[i].ctl, rs[i].Contents();
      if rtt > ctl[3].end {
        ExtendedBelow(ctl[3], rtt);
      }
      bug := rs[i].Update(rtt);
      if bug {
        return;
      }
      if rtt <= ctl[3].end {
        CountedEnd(ctl, rows, RangeOf(ctl, rtt), rtt, rs[i].ctl, rs[i].Contents());
      } else {
        CountedEnd(ExtendedCtl(ctl, rtt), ExtendedRows(ctl, rows, rtt), 3, rtt, rs[i].ctl, rs[i].Contents());
      }
    }

    /** All hits of all entries. */
    method AddUp() returns (total: nat)
      ensures total == Sum(Tots())
    {
      total := 0;
      for i := 0 to |rs|
        invariant total == Sum(Tots()[..i])
      {
        SumNext(Tots(), i);
        total := total + rs[i].totCnt;
      }
      assert Tots()[..|rs|] == Tots();
    }

    /** A new window (fw/apm.c:855-868): all hits are added up. */
    method NewWindow(start: nat, c: nat)
      requires Apart() && |stamps| == |rs| && c < |rs| && (forall k :: 0 <= k < |rs| ==> Good(k))
      modifies this, rs[c], rs[c].cnt
      ensures |stamps| == |rs| && (forall k :: 0 <= k < |rs| ==> Good(k)) && latest == old(latest)
      ensures rs[c].ctl == old(rs[c].ctl)
      ensures stamps[c] == start == Current() && entryCnt == Tots()[c] && totalCnt == Sum(Tots())
    {
      hide Good;
      hide TotsOf;
      hide Sum;
      CheckReset(c, start);
      totalCnt := AddUp();
      entryCnt := rs[c].totCnt;
      windowStart := start - window;
    }

    /** The totals for the present (fw/apm.c:832-890), and whether they have changed. They are exact in a new
        window and never above the hits there are, and the BUG_ON of line 880 is not met. */
    method UpdateCtl(now: nat) returns (changed: bool)
      requires Valid() && now >= latest
      modifies this, rs[At(now)], rs[At(now)].cnt
      ensures Valid() && latest == now && totalCnt <= Sum(Tots()) && Current() == Start(now)
      ensures old(Current()) != Start(now) ==> changed && totalCnt == Sum(Tots())
      ensures !changed ==> totalCnt == old(totalCnt) && Tots() == old(Tots())
      ensures old(Low()) ==> Low()
    {
      hide Good;
      hide TotsOf;
      hide Sum;
      hide Separate;
      var start, c := Start(now), At(now);
      Later(latest, now, interval);
      latest := now;
      if windowStart != start - window {
        NewWindow(start, c);
        PartOf(Tots(), c);
        return true;
      }
      PartOf(Tots(), c);
      changed := CountUp(rs[c].totCnt);
    }

    /** The same window (fw/apm.c:876-889): the hits of its last entry since then. */
    method CountUp(cnt: nat) returns (changed: bool)
      requires entryCnt <= cnt
      modifies this`entryCnt, this`totalCnt
      ensures entryCnt == cnt && totalCnt == old(totalCnt) + cnt - old(entryCnt) && (changed <==> old(entryCnt) != cnt)
    {
      if entryCnt == cnt {
        return false;
      }
      totalCnt := totalCnt + (cnt - entryCnt);
      entryCnt := cnt;
      changed := true;
    }

    /** The entries as the merge reads them. */
    ghost function Entries(): (es: seq<Entry>)
      requires Apart()
      reads rs, Cells()
      ensures |es| == |rs| && forall i :: 0 <= i < |rs| ==> es[i] == Entry(rs[i].ctl, rs[i].Contents())
    {
      seq(|rs|, i requires 0 <= i < |rs| reads rs, Cells() => Entry(rs[i].ctl, rs[i].Contents()))
    }

    /** The timer (fw/apm.c:895-921): whatever came before, the percentiles are those of the hits there are,
        and the merge does not run out of them, where all hits are below the mark. */
    method Tick(now: nat, ith: seq<nat>) returns (changed: bool, bug: bool, val: seq<nat>)
      requires Valid() && now >= latest
      requires Increasing(ith) && forall p :: 0 <= p < |ith| ==> ith[p] <= 100
      modifies this, rs[At(now)], rs[At(now)].cnt
      ensures Valid() && latest == now && totalCnt <= Sum(Tots()) && AllOk(Entries())
      ensures old(Low()) ==> Low() && AllFit(Entries())
      ensures changed && AllFit(Entries()) ==> !bug && Answers(Entries(), totalCnt, ith, val)
      ensures changed && ith != [] && ith[|ith| - 1] == 100 && totalCnt == Sum(Tots()) ==>
        (AllFit(Entries()) <==> !bug && Answers(Entries(), totalCnt, ith, val))
    {
      hide Good;
      hide Separate;
      hide TotsOf;
      hide Sum;
      hide Counted;
      hide AllFit;
      hide Low;
      hide Answers;
      hide AllShaped;
      hide AllCounters;
      changed := UpdateCtl(now);
      bug, val := false, [];
      if changed {
        bug, val := Read(ith);
      }
      EntriesOk(Entries());
    }

    method Read(ith: seq<nat>) returns (bug: bool, val: seq<nat>)
      requires Apart() && (forall i :: 0 <= i < |rs| ==> Good(i)) && totalCnt <= Sum(Tots())
      requires Increasing(ith) && forall p :: 0 <= p < |ith| ==> ith[p] <= 100
      ensures AllOk(Entries()) && (AllFit(Entries()) ==> !bug && Answers(Entries(), totalCnt, ith, val))
      ensures ith != [] && ith[|ith| - 1] == 100 && totalCnt == Sum(Tots()) ==>
        (AllFit(Entries()) <==> !bug && Answers(Entries(), totalCnt, ith, val))
    {
      hide AllCounters;
      hide Good;
      hide TotsOf;
      hide Sum;
      hide AllFit;
      var es := ReadAll();
      EntriesOk(es);
      bug, val := Percentile(es, totalCnt, ith);
      assert es == Entries();
    }

    method ReadAll() returns (es: seq<Entry>)
      requires Apart()
      ensures es == Entries()
    {
      es := [];
      for i := 0 to |rs|
        invariant es == Entries()[..i]
      {
        es := es + [Entry(rs[i].ctl, [rs[i].cnt[0][..], rs[i].cnt[1][..], rs[i].cnt[2][..], rs[i].cnt[3][..]])];
      }
    }

    lemma EntriesOk(es: seq<Entry>)
      requires Apart() && (forall i :: 0 <= i < |rs| ==> Good(i)) && es == Entries()
      ensures AllOk(es) && AllShaped(es) && AllCounters(es) == Sum(Tots()) && (Low() ==> AllFit(es))
    {
      forall e | e in es ensures e.Ok() && Shape(e.ctl) && (Low() ==> e.Fits()) {
        var i :| 0 <= i < |es| && es[i] == e;
        assert Good(i);
        if Low() { LowFits(e); }
      }
      assert es[..|rs|] == es && Tots()[..|rs|] == Tots();
      CountersAre(es, |rs|);
    }

    lemma {:induction false} CountersAre(es: seq<Entry>, n: nat)
      requires Apart() && (forall i :: 0 <= i < |rs| ==> Good(i)) && es == Entries() && n <= |rs| && AllOk(es)
      ensures AllOk(es[..n]) && AllCounters(es[..n]) == Sum(Tots()[..n])
    {
      hide TotsOf;
      if n > 0 {
        CountersAre(es, n - 1);
        SumNext(Tots(), n - 1);
        assert es[..n][..n - 1] == es[..n - 1];
        assert Good(n - 1);
        assert Counters(es[n - 1]) == rs[n - 1].Total();
      }
    }
  }

  /** Each percentile is the one of its share of the total. */
  ghost predicate Answers(es: seq<Entry>, total: nat, ith: seq<nat>, val: seq<nat>)
    requires AllOk(es)
  {
    |val| == |ith| && AllRight(es, Shares(total, ith), val)
  }

  lemma PartOf(ts: seq<nat>, c: nat)
    requires c < |ts|
    ensures ts[c] <= Sum(ts)
  {
    SumUpdate(ts, c, 0);
  }

  /** Time goes on within an interval, or to a later one. */
  lemma Later(a: nat, b: nat, d: nat)
    requires a <= b && d > 0
    ensures a - a % d <= b - b % d && (a - a % d == b - b % d <==> a / d == b / d)
  {
    DivMod(a, d);
    DivMod(b, d);
    if a / d > b / d {
      MulAtLeast(a / d, b / d + 1, d);
      MulAdd(b / d, 1, d);
    } else if a / d < b / d {
      MulAtLeast(b / d, a / d + 1, d);
      MulAdd(a / d, 1, d);
    }
  }

  /** Different entries with counters of their own. */
  ghost predicate Separate(rs: seq<Ranges>) {
    && (forall i :: 0 <= i < |rs| ==> rs[i].Rows())
    && (forall i, j :: 0 <= i < j < |rs| ==> rs[i] != rs[j])
    && (forall i, j, r, q :: 0 <= i < j < |rs| && 0 <= r < 4 && 0 <= q < 4 ==> rs[i].cnt[r] != rs[j].cnt[q])
  }

  ghost function TotsOf(rs: seq<Ranges>): (ts: seq<nat>)
    reads rs
    ensures |ts| == |rs| && forall i :: 0 <= i < |rs| ==> ts[i] == rs[i].totCnt
  {
    if rs == [] then [] else TotsOf(rs[..|rs| - 1]) + [rs[|rs| - 1].totCnt]
  }
}
