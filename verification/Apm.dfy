/** Response time statistics (fw/apm.c:40-379): four ranges of sixteen buckets that move and change
    their scale while hits come in. */
module Apm {
  import opened Powers

  const BUCKETS := 16
  const RANGES := 4
  const UINT_MAX := 0xFFFF_FFFF

  function Wrap32(x: nat): nat {
    x % TWO32
  }

  /** The scale of a range: bucket b stands for begin + b * 2^order. */
  datatype Ctl = Ctl(order: nat, begin: nat, end: nat) {
    function Value(b: nat): nat {
      begin + b * Pow2(order)
    }

    /** The last bucket is the end of the range, and the end is a 32-bit number. */
    ghost predicate Scaled() {
      end == begin + 15 * Pow2(order) && end < TWO32
    }

    /** The bucket for a response time, in 32-bit arithmetic (fw/apm.c:113-119). */
    function Index(t: nat): nat {
      if t <= begin then 0
      else Over(Wrap32(t - begin + (Pow2(order) - 1)), Pow2(order))
    }
  }

  lemma OrderFits(c: Ctl)
    requires c.Scaled()
    ensures 16 * Pow2(c.order) <= TWO32
  {
    assert Pow2(7) == 128;
    Pow2Add(7, 7);
    Pow2Add(14, 14);
    if c.order > 28 {
      Pow2Monotone(29, c.order);
    } else {
      Pow2Monotone(c.order, 28);
    }
  }

  lemma DivUp(d: nat, p: nat)
    requires 1 <= d <= 15 * p
    ensures var q := (d + (p - 1)) / p; 1 <= q <= 15 && (q - 1) * p < d <= q * p
  {
    var q := (d + (p - 1)) / p;
    assert q * p <= d + (p - 1) < q * p + p;
    assert (q - 1) * p == q * p - p;
    assert 1 <= q by {
      if q <= 0 { MulAtLeast(0, q, p); }
    }
    if q > 15 { MulAtLeast(q, 16, p); }
  }

  /** A response time within the end of a range falls in the lowest of its sixteen buckets that is
      not below it. */
  lemma IndexIsLeast(c: Ctl, t: nat)
    requires c.Scaled() && t <= c.end
    ensures c.Index(t) < BUCKETS && t <= c.Value(c.Index(t))
    ensures c.Index(t) > 0 ==> c.Value(c.Index(t) - 1) < t
  {
    OrderFits(c);
    hide Pow2;
    if t > c.begin {
      var d, p := t - c.begin, Pow2(c.order);
      DivUp(d, p);
      assert c.Index(t) == (d + (p - 1)) / p;
    }
  }

  // ----- the rows of counters

  function Sum(s: seq<nat>): nat {
    if s == [] then 0 else s[0] + Sum(s[1..])
  }

  lemma {:induction false} SumAppend(s: seq<nat>, t: seq<nat>)
    ensures Sum(s + t) == Sum(s) + Sum(t)
  {
    if s == [] {
      assert s + t == t;
    } else {
      assert (s + t)[1..] == s[1..] + t;
      SumAppend(s[1..], t);
    }
  }

  lemma {:induction false} SumUpdate(s: seq<nat>, i: nat, x: nat)
    requires i < |s|
    ensures Sum(s[i := x]) + s[i] == Sum(s) + x
  {
    if i == 0 {
      assert s[0 := x][1..] == s[1..];
    } else {
      assert s[i := x][1..] == s[1..][i - 1 := x];
      SumUpdate(s[1..], i - 1, x);
    }
  }

  lemma SumTwo(x: nat, y: nat)
    ensures Sum([x, y]) == x + y
  {
    assert [x, y] == [x] + [y];
    SumAppend([x], [y]);
  }

  lemma SumSplit(s: seq<nat>, i: nat)
    requires i <= |s|
    ensures Sum(s) == Sum(s[..i]) + Sum(s[i..])
  {
    SumAppend(s[..i], s[i..]);
    assert s == s[..i] + s[i..];
  }

  lemma SumNext(s: seq<nat>, i: nat)
    requires i < |s|
    ensures Sum(s[..i + 1]) == Sum(s[..i]) + s[i]
  {
    assert s[..i + 1] == s[..i] + [s[i]];
    SumAppend(s[..i], [s[i]]);
  }

  /** Neighbours joined: the sums of n blocks of u counters. */
  function Blocks(s: seq<nat>, u: nat, n: nat): (b: seq<nat>)
    requires n * u <= |s|
    ensures |b| == n && forall i :: 0 <= i < n ==> i * u + u <= |s| && b[i] == Sum(s[i * u..i * u + u])
  {
    if n == 0 then []
    else
      assert n * u == (n - 1) * u + u;
      Blocks(s, u, n - 1) + [Sum(s[(n - 1) * u..(n - 1) * u + u])]
  }

  lemma {:induction false} BlocksKeepSum(s: seq<nat>, u: nat, n: nat)
    requires n * u <= |s|
    ensures Sum(Blocks(s, u, n)) == Sum(s[..n * u])
  {
    if n > 0 {
      assert n * u == (n - 1) * u + u;
      BlocksKeepSum(s, u, n - 1);
      SumAppend(Blocks(s, u, n - 1), [Sum(s[(n - 1) * u..n * u])]);
      SumAppend(s[..(n - 1) * u], s[(n - 1) * u..n * u]);
      assert s[..n * u] == s[..(n - 1) * u] + s[(n - 1) * u..n * u];
    }
  }

  /** Every counter split in two halves. */
  function Halves(s: seq<nat>): (h: seq<nat>)
    ensures |h| == 2 * |s|
    ensures forall i :: 0 <= i < |s| ==> h[2 * i] == s[i] / 2 && h[2 * i + 1] == s[i] - s[i] / 2
  {
    if s == [] then []
    else
      var l := s[..|s| - 1];
      var x := s[|s| - 1];
      Halves(l) + [x / 2, x - x / 2]
  }

  lemma {:induction false} HalvesKeepSum(s: seq<nat>)
    ensures Sum(Halves(s)) == Sum(s)
  {
    if s != [] {
      var l, x := s[..|s| - 1], s[|s| - 1];
      HalvesKeepSum(l);
      SumAppend(Halves(l), [x / 2, x - x / 2]);
      SumTwo(x / 2, x - x / 2);
      SumAppend(l, [x]);
      assert s == l + [x];
    }
  }

  /** A range after its right bound has moved: the left half holds all counters. */
  function Grown(s: seq<nat>): (g: seq<nat>)
    requires |s| == BUCKETS
    ensures |g| == BUCKETS
  {
    Blocks(s, 2, 8) + s[8..]
  }

  /** A range after its left bound has moved: the first bucket takes the left half. */
  function Shrunk(s: seq<nat>): (g: seq<nat>)
    requires |s| == BUCKETS
    ensures |g| == BUCKETS
  {
    [Sum(s[..8]) + s[8] / 2, s[8] - s[8] / 2] + Halves(s[9..])
  }

  lemma ShrunkKeepsSum(s: seq<nat>)
    requires |s| == BUCKETS
    ensures Sum(Shrunk(s)) == Sum(s)
  {
    var a := [Sum(s[..8]) + s[8] / 2, s[8] - s[8] / 2];
    SumAppend(a, Halves(s[9..]));
    HalvesKeepSum(s[9..]);
    assert Sum(a) == Sum(s[..8]) + s[8];
    SumSplit(s, 9);
    SumNext(s, 8);
  }

  lemma GrownKeepsSum(s: seq<nat>)
    requires |s| == BUCKETS
    ensures Sum(Grown(s)[..8]) == Sum(s)
  {
    hide Sum;
    hide Blocks;
    BlocksKeepSum(s, 2, 8);
    assert s[..16] == s;
    assert Grown(s)[..8] == Blocks(s, 2, 8);
  }

  /** The last range after it has been extended by a number of orders: its counters joined on the
      left, in 32 bits from eight on, and nothing on the right. */
  function Stretched(s: seq<nat>, shift: nat): (g: seq<nat>)
    requires |s| == BUCKETS && 1 <= shift <= 4
    ensures |g| == BUCKETS
  {
    Pow2Values();
    var b := Blocks(s, Pow2(shift), 16 / Pow2(shift));
    (if shift <= 2 then b else Low32(b)) + Zeros(16 - 16 / Pow2(shift))
  }

  function Zeros(n: nat): (z: seq<nat>)
    ensures |z| == n && forall i :: 0 <= i < n ==> z[i] == 0
    ensures Sum(z) == 0
  {
    if n == 0 then [] else [0] + Zeros(n - 1)
  }

  /** What is left of every number in 32 bits. */
  function Low32(s: seq<nat>): (t: seq<nat>)
    ensures |t| == |s| && forall i :: 0 <= i < |s| ==> t[i] == s[i] % TWO32
  {
    if s == [] then [] else [s[0] % TWO32] + Low32(s[1..])
  }

  ghost predicate Below32(s: seq<nat>) {
    forall i :: 0 <= i < |s| ==> s[i] < TWO32
  }

  lemma {:induction false} Low32Loses(s: seq<nat>)
    ensures Sum(Low32(s)) <= Sum(s) && (Sum(Low32(s)) == Sum(s) <==> Below32(s))
  {
    if s != [] {
      Low32Loses(s[1..]);
      assert s == [s[0]] + s[1..];
      assert s[0] % TWO32 <= s[0];
    }
  }

  /** Extending keeps all hits, if and only if no joined counter passes 32 bits in the branch that
      adds in 32 bits. */
  lemma StretchedKeepsSum(s: seq<nat>, shift: nat)
    requires |s| == BUCKETS && 1 <= shift <= 4
    ensures 16 / Pow2(shift) * Pow2(shift) == 16
    ensures Sum(Stretched(s, shift)) == Sum(s) <==>
            shift <= 2 || Below32(Blocks(s, Pow2(shift), 16 / Pow2(shift)))
  {
    Pow2Values();
    hide Sum;
    hide Blocks;
    hide Zeros;
    hide Low32;
    hide Below32;
    var u, n := Pow2(shift), 16 / Pow2(shift);
    var b := Blocks(s, u, n);
    BlocksKeepSum(s, u, n);
    assert s[..16] == s;
    Low32Loses(b);
    SumAppend(b, Zeros(16 - n));
    SumAppend(Low32(b), Zeros(16 - n));
  }

  // ----- the rows changed in place

  /** 2^32 hits in the first bucket, and an extension by three orders. */
  lemma StretchedLoses()
    ensures var s := [TWO32] + Zeros(15); Sum(Stretched(s, 3)) != Sum(s)
  {
    var s := [TWO32] + Zeros(15);
    Pow2Values();
    StretchedKeepsSum(s, 3);
    var b := Blocks(s, 8, 2);
    SumUpdate(s[0..8], 0, 0);
    assert b[0] == Sum(s[0 * 8..0 * 8 + 8]) >= TWO32;
  }

  /** fw/apm.c:133-134 */
  method GrowRow(row: array<nat>)
    requires row.Length == BUCKETS
    modifies row
    ensures row[..] == Grown(old(row[..]))
  {
    hide Sum;
    hide Blocks;
    for i := 0 to 8
      invariant forall j :: 0 <= j < i ==> row[j] == old(row[2 * j]) + old(row[2 * j + 1])
      invariant forall j :: i <= j < 16 ==> row[j] == old(row[j])
    {
      row[i] := row[2 * i] + row[2 * i + 1];
    }
    ghost var s := old(row[..]);
    forall j | 0 <= j < 8 ensures Blocks(s, 2, 8)[j] == s[2 * j] + s[2 * j + 1] {
      assert s[j * 2..j * 2 + 2] == [s[2 * j], s[2 * j + 1]];
      SumTwo(s[2 * j], s[2 * j + 1]);
    }
  }

  /** The left half goes to the first bucket (fw/apm.c:152-153). */
  method FoldLeft(row: array<nat>)
    requires row.Length == BUCKETS
    modifies row
    ensures row[0] == Sum(old(row[..8])) && forall j :: 1 <= j < 16 ==> row[j] == old(row[j])
  {
    hide Sum;
    ghost var s := row[..];
    SumOne(s[0]);
    assert s[..1] == [s[0]];
    for i := 1 to 8
      invariant row[0] == Sum(s[..i]) && forall j :: 1 <= j < 16 ==> row[j] == s[j]
    {
      SumNext(s, i);
      row[0] := row[0] + row[i];
    }
    assert old(row[..8]) == s[..8];
  }

  lemma ShrunkAt(s: seq<nat>, k: nat)
    requires |s| == BUCKETS && 2 <= k < 16
    ensures Shrunk(s)[k] == if k % 2 == 0 then s[8 + k / 2] / 2 else s[8 + k / 2] - s[8 + k / 2] / 2
  {
    hide Sum;
    hide Halves;
    var j := k / 2 - 1;
    assert s[9..][j] == s[8 + k / 2];
    assert Shrunk(s)[k] == Halves(s[9..])[k - 2];
    assert k - 2 == if k % 2 == 0 then 2 * j else 2 * j + 1;
  }

  /** The left half goes to the first bucket, and the right half is spread over the rest, from its
      left end on (fw/apm.c:152-163). */
  method ShrinkRow(row: array<nat>)
    requires row.Length == BUCKETS
    modifies row
    ensures row[..] == Shrunk(old(row[..]))
  {
    hide Sum;
    hide Halves;
    ghost var s := row[..];
    assert row[..8] == s[..8];
    FoldLeft(row);
    var full := row[8];
    var half := full / 2;
    row[0] := row[0] + half;
    row[1] := full - half;
    for i := 1 to 8
      invariant row[0] == Sum(s[..8]) + s[8] / 2 && row[1] == s[8] - s[8] / 2
      invariant forall k :: 2 <= k < 2 * i ==> row[k] == Shrunk(s)[k]
      invariant forall k :: 2 * i <= k < 16 ==> row[k] == s[k]
    {
      full := row[8 + i];
      half := full / 2;
      row[2 * i] := half;
      row[2 * i + 1] := full - half;
      ShrunkAt(s, 2 * i);
      ShrunkAt(s, 2 * i + 1);
    }
    assert row[..] == Shrunk(s);
  }

  lemma SumOne(x: nat)
    ensures Sum([x]) == x
  {}

  /** The sum of one block of the row: pairs and quadruples in 64 bits, more in 32 bits
      (fw/apm.c:208-229). */
  method GatherBlock(row: array<nat>, i: nat, units: nat) returns (sum: nat)
    requires row.Length == BUCKETS && units >= 2 && i * units + units <= 16
    ensures sum == if units <= 4 then Sum(row[i * units..i * units + units])
                   else Sum(row[i * units..i * units + units]) % TWO32
  {
    ghost var s := row[i * units..i * units + units];
    sum := 0;
    assert s[..0] == [];
    for b := 0 to units
      invariant sum == if units <= 4 then Sum(s[..b]) else Sum(s[..b]) % TWO32
    {
      SumNext(s, b);
      assert s[b] == row[i * units + b];
      sum := if units <= 4 then sum + row[i * units + b] else (sum + row[i * units + b]) % TWO32;
    }
    assert s[..units] == s;
  }

  /** fw/apm.c:208-231 */
  method StretchRow(row: array<nat>, shift: nat)
    requires row.Length == BUCKETS && 1 <= shift <= 4
    modifies row
    ensures row[..] == Stretched(old(row[..]), shift)
  {
    hide Sum;
    hide Blocks;
    hide Zeros;
    hide Low32;
    Pow2Values();
    ghost var s := row[..];
    var units := Pow2(shift);
    var parts := 16 / units;
    assert parts * units == 16;
    ghost var b := Blocks(s, units, parts);
    for i := 0 to parts
      invariant forall j :: 0 <= j < i ==> row[j] == if units <= 4 then b[j] else b[j] % TWO32
      invariant forall j :: i <= j < 16 ==> row[j] == s[j]
    {
      BlockInside(i, units, parts);
      var sum := GatherBlock(row, i, units);
      assert row[i * units..i * units + units] == s[i * units..i * units + units];
      row[i] := sum;
    }
    for i := parts to 16
      invariant forall j :: 0 <= j < parts ==> row[j] == if units <= 4 then b[j] else b[j] % TWO32
      invariant forall j :: parts <= j < i ==> row[j] == 0
    {
      row[i] := 0;
    }
    assert row[..] == Stretched(s, shift);
  }

  lemma BlockInside(i: nat, units: nat, parts: nat)
    requires i < parts && parts * units == 16 && units >= 1
    ensures i <= i * units && i * units + units <= 16
  {
    assert i * units + units == (i + 1) * units <= parts * units;
  }

  function NonZero(s: seq<nat>): nat {
    if s == [] then 0 else NonZero(s[..|s| - 1]) + if s[|s| - 1] == 0 then 0 else 1
  }

  /** The sum, the number of non-zero counters, and the first of the largest (fw/apm.c:253-262). */
  method Scan(row: array<nat>) returns (sum: nat, cnt: nat, max: nat, iMax: nat)
    requires row.Length == BUCKETS
    ensures sum == Sum(row[..]) && cnt == NonZero(row[..]) && (cnt == 0 <==> sum == 0)
    ensures max == Maximum(row[..]) && iMax < BUCKETS && max == row[iMax] && (iMax == 0 <==> row[0] == max)
  {
    sum, cnt, max, iMax := 0, 0, 0, 0;
    ghost var s := row[..];
    assert s[..0] == [];
    for i := 0 to 16
      invariant sum == Sum(s[..i]) && cnt == NonZero(s[..i]) && (cnt == 0 <==> sum == 0)
      invariant iMax < BUCKETS && (if max == 0 then iMax == 0 else iMax < i && max == row[iMax])
      invariant forall j :: 0 <= j < i ==> row[j] <= max && (j < iMax ==> row[j] < max)
    {
      SumNext(s, i);
      assert s[..i + 1][..i] == s[..i];
      if row[i] != 0 {
        sum := sum + row[i];
        cnt := cnt + 1;
      }
      if max < row[i] {
        max := row[i];
        iMax := i;
      }
    }
    assert s[..16] == s;
    MaximumIs(s, iMax);
  }

  function Maximum(s: seq<nat>): nat {
    if s == [] then 0 else var m := Maximum(s[1..]); if s[0] > m then s[0] else m
  }

  lemma {:induction false} MaximumIs(s: seq<nat>, b: nat)
    requires b < |s| && forall j :: 0 <= j < |s| ==> s[j] <= s[b]
    ensures Maximum(s) == s[b]
  {
    if b == 0 {
      MaximumBelow(s[1..], s[0]);
    } else {
      MaximumIs(s[1..], b - 1);
    }
  }

  lemma {:induction false} MaximumBelow(s: seq<nat>, x: nat)
    requires forall j :: 0 <= j < |s| ==> s[j] <= x
    ensures Maximum(s) <= x
  {
    if s != [] {
      MaximumBelow(s[1..], x);
    }
  }

  lemma {:induction false} NonZeroSome(s: seq<nat>)
    ensures NonZero(s) == 0 <==> Sum(s) == 0
  {
    if s != [] {
      NonZeroSome(s[..|s| - 1]);
      SumNext(s, |s| - 1);
      assert s[..|s|] == s;
    }
  }

  /** A row with a counter above twice the average of those that are not zero. */
  predicate Outlier(s: seq<nat>) {
    NonZero(s) > 0 && Maximum(s) > Sum(s) * 2 / NonZero(s)
  }

  /** A row after eight shares of its first counter have moved away. */
  function Relieved(row: seq<nat>): (g: seq<nat>)
    requires |row| == BUCKETS
    ensures |g| == BUCKETS
  {
    row[0 := row[0] - row[0] / 9 * 8]
  }

  /** The row before it, grown, with the shares in its right half. */
  function Loaded(prev: seq<nat>, row: seq<nat>): (g: seq<nat>)
    requires |prev| == |row| == BUCKETS
    ensures |g| == BUCKETS
  {
    Blocks(prev, 2, 8) + seq(8, i => row[0] / 9)
  }

  /** Hits of a row move to the right half of the row before it, which has just grown
      (fw/apm.c:286-291). */
  method MoveHits(prev: array<nat>, row: array<nat>)
    requires prev != row && prev.Length == row.Length == BUCKETS
    modifies prev, row
    ensures Sum(prev[..]) + Sum(row[..]) == old(Sum(prev[..]) + Sum(row[..]))
    ensures prev[..] == Loaded(old(prev[..]), old(row[..])) && row[..] == Relieved(old(row[..]))
  {
    hide Sum;
    hide Blocks;
    ghost var p, q := prev[..], row[..];
    GrowRow(prev);
    var cnt := row[0] / 9;
    row[0] := row[0] - cnt * 8;
    for i := 8 to 16
      invariant prev[..8] == Blocks(p, 2, 8) && forall j :: 8 <= j < i ==> prev[j] == cnt
      invariant row[..] == q[0 := q[0] - cnt * 8]
    {
      prev[i] := cnt;
    }
    GrownKeepsSum(p);
    assert Grown(p)[..8] == prev[..8];
    SumUpdate(q, 0, q[0] - cnt * 8);
    SumSplit(prev[..], 8);
    assert prev[..][..8] == prev[..8] && prev[..][8..] == [cnt, cnt, cnt, cnt, cnt, cnt, cnt, cnt];
    SumEight(cnt);
  }

  lemma SumEight(x: nat)
    ensures Sum([x, x, x, x, x, x, x, x]) == 8 * x
  {
    SumTwo(x, x);
    SumAppend([x, x], [x, x]);
    assert [x, x] + [x, x] == [x, x, x, x];
    SumAppend([x, x, x, x], [x, x, x, x]);
    assert [x, x, x, x] + [x, x, x, x] == [x, x, x, x, x, x, x, x];
  }

  // ----- the ranges

  /** The ranges follow each other without overlap, each scaled, the first one fixed at 1. */
  ghost predicate Shape(ctl: seq<Ctl>) {
    && |ctl| == RANGES && ctl[0].begin == 1
    && (forall r :: 0 <= r < 4 ==> ctl[r].Scaled())
    && (forall r :: 0 <= r < 3 ==> ctl[r].end < ctl[r + 1].begin)
  }

  /** fw/apm.c:126-127 and 143-144 */
  function GrowRight(c: Ctl): Ctl {
    Ctl(c.order + 1, c.begin, c.begin + 15 * Pow2(c.order + 1))
  }

  function ShrinkLeft(c: Ctl): (d: Ctl)
    requires c.Scaled() && c.order > 0
    ensures d.Scaled() && d.end == c.end && d.begin > c.begin
  {
    Ctl(c.order - 1, c.end - 15 * Pow2(c.order - 1), c.end)
  }

  function InitialCtl(): seq<Ctl> {
    [Ctl(0, 1, 16), Ctl(1, 17, 47), Ctl(2, 48, 108), Ctl(4, 109, 349)]
  }

  lemma InitialShape()
    ensures Shape(InitialCtl())
  {
    Pow2Values();
  }

  method NewRow() returns (row: array<nat>)
    ensures fresh(row) && row.Length == BUCKETS && Sum(row[..]) == 0
  {
    row := new nat[16](_ => 0);
    assert row[..] == Zeros(16);
  }

  method ClearRow(row: array<nat>)
    requires row.Length == BUCKETS
    modifies row
    ensures Sum(row[..]) == 0
  {
    hide Sum;
    for i := 0 to 16
      invariant forall j :: 0 <= j < i ==> row[j] == 0
    {
      row[i] := 0;
    }
    assert row[..] == Zeros(16);
  }

  /** The order to which a range is extended: the first one, from o on, that reaches t. */
  function ReachOrder(begin: nat, o: nat, t: nat): (r: nat)
    ensures r >= o && begin + 15 * Pow2(r) >= t && forall q :: o <= q < r ==> begin + 15 * Pow2(q) < t
    decreases t - begin - 15 * Pow2(o)
  {
    if begin + 15 * Pow2(o) >= t then o else ReachOrder(begin, o + 1, t)
  }

  lemma {:induction false} SliceBelow(s: seq<nat>, i: nat, j: nat)
    requires i <= j <= |s|
    ensures Sum(s[i..j]) <= Sum(s)
  {
    SumSplit(s, i);
    SumSplit(s[i..], j - i);
    assert s[i..][..j - i] == s[i..j];
  }

  /** Few hits are never lost. */
  lemma StretchedFew(s: seq<nat>, shift: nat)
    requires |s| == BUCKETS && 1 <= shift <= 4 && Sum(s) < TWO32
    ensures Sum(Stretched(s, shift)) == Sum(s)
  {
    hide Sum;
    hide Blocks;
    hide Stretched;
    StretchedKeepsSum(s, shift);
    hide Pow2;
    var b := Blocks(s, Pow2(shift), 16 / Pow2(shift));
    forall i | 0 <= i < |b| ensures b[i] < TWO32 {
      SliceBelow(s, i * Pow2(shift), i * Pow2(shift) + Pow2(shift));
    }
  }

  /** Where a response time belongs: the first range that does not end before it. */
  function RangeOf(ctl: seq<Ctl>, t: nat): (r: nat)
    requires |ctl| == RANGES
    ensures r < 4 && (t <= ctl[3].end ==> t <= ctl[r].end && forall q :: 0 <= q < r ==> ctl[q].end < t)
  {
    if t <= ctl[0].end then 0 else if t <= ctl[1].end then 1 else if t <= ctl[2].end then 2 else 3
  }

  /** A hit in the bucket that t falls in. */
  function Hit(row: seq<nat>, b: nat): (g: seq<nat>)
    ensures |g| == |row|
  {
    if b < |row| then row[b := row[b] + 1] else row
  }

  ghost predicate Square(rows: seq<seq<nat>>) {
    |rows| == RANGES && forall r :: 0 <= r < 4 ==> |rows[r]| == BUCKETS
  }

  /** All bounds and rows after a response time was counted in range r and the range adjusted. */
  ghost predicate CountedIn(ctl: seq<Ctl>, rows: seq<seq<nat>>, r: nat, t: nat, ctl': seq<Ctl>, rows': seq<seq<nat>>)
    requires Shape(ctl) && Square(rows) && r < 4
  {
    var hit := Hit(rows[r], ctl[r].Index(t));
    && ctl' == (if r == 0 then ctl else AdjustedCtl(ctl, r, hit))
    && rows' == if r == 0 then rows[0 := hit]
                else rows[r := AdjustedRow(ctl, r, hit)][r - 1 := AdjustedPrev(ctl, r, rows[r - 1], hit)]
  }

  /** The bounds of the ranges after range r has been looked at: one with an outlier moves its left
      bound, if it can, and the one before it moves its right bound, if the outlier is on the left
      and there is room. */
  function AdjustedCtl(ctl: seq<Ctl>, r: nat, row: seq<nat>): seq<Ctl>
    requires Shape(ctl) && 1 <= r < 4 && |row| == BUCKETS
  {
    if !Outlier(row) then ctl
    else
      var grown := if Overflows(ctl, r, row) then ctl[r - 1 := GrowRight(ctl[r - 1])] else ctl;
      if ctl[r].order > 0 then grown[r := ShrinkLeft(ctl[r])] else grown
  }

  /** The outlier is on the left, and the range before has room to grow. */
  predicate Overflows(ctl: seq<Ctl>, r: nat, row: seq<nat>)
    requires Shape(ctl) && 1 <= r < 4 && |row| == BUCKETS
  {
    Outlier(row) && row[0] == Maximum(row) && GrowRight(ctl[r - 1]).end < ctl[r].begin
  }

  function AdjustedRow(ctl: seq<Ctl>, r: nat, row: seq<nat>): (g: seq<nat>)
    requires Shape(ctl) && 1 <= r < 4 && |row| == BUCKETS
    ensures |g| == BUCKETS
  {
    var left := if Overflows(ctl, r, row) then Relieved(row) else row;
    if Outlier(row) && ctl[r].order > 0 then Shrunk(left) else left
  }

  function AdjustedPrev(ctl: seq<Ctl>, r: nat, prev: seq<nat>, row: seq<nat>): seq<nat>
    requires Shape(ctl) && 1 <= r < 4 && |prev| == |row| == BUCKETS
  {
    if Overflows(ctl, r, row) then Loaded(prev, row) else prev
  }

  /** The last range reaching t. */
  ghost function ExtendedCtl(ctl: seq<Ctl>, t: nat): (ctl': seq<Ctl>)
    requires |ctl| == RANGES
    ensures |ctl'| == RANGES
  {
    ctl[3 := Ctl(ReachOrder(ctl[3].begin, ctl[3].order + 1, t), ctl[3].begin, ExtendedEnd(ctl[3], t))]
  }

  ghost function ExtendedRows(ctl: seq<Ctl>, rows: seq<seq<nat>>, t: nat): (rows': seq<seq<nat>>)
    requires |ctl| == RANGES && Square(rows)
    ensures Square(rows')
  {
    var n := ReachOrder(ctl[3].begin, ctl[3].order + 1, t) - ctl[3].order;
    rows[3 := Stretched(rows[3], if n < 4 then n else 4)]
  }

  class Ranges {
    var ctl: seq<Ctl>
    const cnt: seq<array<nat>>
    var totCnt: nat
    var totVal: nat
    var minVal: nat
    var maxVal: nat

    /** fw/apm.c:657-662 and 799-802 */
    constructor ()
      ensures Valid() && Total() == totCnt == 0 && minVal == UINT_MAX && maxVal == totVal == 0
      ensures ctl == InitialCtl()
      ensures forall r :: 0 <= r < 4 ==> fresh(cnt[r])
    {
      var c0 := NewRow();
      var c1 := NewRow();
      var c2 := NewRow();
      var c3 := NewRow();
      InitialShape();
      cnt := [c0, c1, c2, c3];
      ctl := InitialCtl();
      totCnt, totVal, minVal, maxVal := 0, 0, UINT_MAX, 0;
      hide Sum;
      hide Shape;
      hide InitialCtl;
    }

    ghost predicate Rows()
    {
      && |cnt| == RANGES && (forall r :: 0 <= r < 4 ==> cnt[r].Length == BUCKETS)
      && cnt[0] != cnt[1] && cnt[0] != cnt[2] && cnt[0] != cnt[3]
      && cnt[1] != cnt[2] && cnt[1] != cnt[3] && cnt[2] != cnt[3]
    }

    ghost predicate Valid()
      reads this`ctl
    {
      Rows() && Shape(ctl)
    }

    ghost function Contents(): (rows: seq<seq<nat>>)
      requires Rows()
      reads cnt
      ensures Square(rows)
    {
      [cnt[0][..], cnt[1][..], cnt[2][..], cnt[3][..]]
    }

    /** All hits in all buckets. */
    ghost function Total(): nat
      requires Rows()
      reads cnt
    {
      Sum(cnt[0][..]) + Sum(cnt[1][..]) + Sum(cnt[2][..]) + Sum(cnt[3][..])
    }

    lemma Untouched()
      requires Rows() && Total() == 0
      ensures Contents() == [Zeros(16), Zeros(16), Zeros(16), Zeros(16)]
    {
      OnlyZeros(cnt[0][..]);
      OnlyZeros(cnt[1][..]);
      OnlyZeros(cnt[2][..]);
      OnlyZeros(cnt[3][..]);
    }

    /** The last range is extended to take a larger response time (fw/apm.c:169-232). The BUG_ON
        is met exactly when the range would end beyond 32 bits. */
    method Extend(t: nat) returns (bug: bool)
      requires Valid() && t > ctl[3].end
      modifies this`ctl, cnt[3]
      ensures var c := old(ctl[3]); var order := ReachOrder(c.begin, c.order + 1, t);
              if bug then c.begin + 15 * Pow2(order) >= TWO32 && ctl == old(ctl) && cnt[3][..] == old(cnt[3][..])
              else Valid() && t <= ctl[3].end && ctl == old(ctl)[3 := Ctl(order, c.begin, c.begin + 15 * Pow2(order))]
                   && cnt[3][..] == Stretched(old(cnt[3][..]), if order - c.order < 4 then order - c.order else 4)
    {
      hide Stretched;
      hide Pow2;
      var c := ctl[3];
      var order := c.order + 1;
      var end := c.begin + 15 * Pow2(order);
      while end < t
        invariant order > c.order && end == c.begin + 15 * Pow2(order)
        invariant ReachOrder(c.begin, order, t) == ReachOrder(c.begin, c.order + 1, t)
        decreases t - end
        modifies {}
      {
        order := order + 1;
        DoubleUp(order);
        end := c.begin + 15 * Pow2(order);
      }
      bug := end >= TWO32;
      if bug {
        return;
      }
      var shift := if order - c.order < 4 then order - c.order else 4;
      ctl := ctl[3 := Ctl(order, c.begin, end)];
      assert cnt[3][..] == old(cnt[3][..]);
      StretchRow(cnt[3], shift);
    }

    /** The range before grows when the hits fall in the gap between, and a part of them moves there
        (fw/apm.c:285-292). */
    method GrowPrevious(r: nat)
      requires Valid() && 1 <= r < 4 && GrowRight(ctl[r - 1]).end < ctl[r].begin
      modifies this`ctl, cnt[r - 1], cnt[r]
      ensures Valid() && Total() == old(Total()) && ctl == old(ctl)[r - 1 := GrowRight(old(ctl[r - 1]))]
      ensures cnt[r - 1][..] == Loaded(old(cnt[r - 1][..]), old(cnt[r][..])) && cnt[r][..] == Relieved(old(cnt[r][..]))
    {
      hide Loaded;
      hide Relieved;
      hide Sum;
      hide Pow2;
      ctl := ctl[r - 1 := GrowRight(ctl[r - 1])];
      MoveHits(cnt[r - 1], cnt[r]);
    }

    method ShrinkRange(r: nat)
      requires Valid() && 1 <= r < 4 && ctl[r].order > 0
      modifies this`ctl, cnt[r]
      ensures Valid() && Total() == old(Total()) && ctl == old(ctl)[r := ShrinkLeft(old(ctl[r]))]
      ensures cnt[r][..] == Shrunk(old(cnt[r][..]))
    {
      hide Sum;
      hide Pow2;
      hide Shrunk;
      ctl := ctl[r := ShrinkLeft(ctl[r])];
      ShrunkKeepsSum(cnt[r][..]);
      ShrinkRow(cnt[r]);
    }

    /** A range with a bucket far above the others changes its scale (fw/apm.c:244-301), and no hit
        is lost. The BUG_ON of line 263 needs an empty range. */
    method Adjust(r: nat)
      requires Valid() && 1 <= r < 4 && Sum(cnt[r][..]) > 0
      modifies this`ctl, cnt[r - 1], cnt[r]
      ensures Valid() && Total() == old(Total())
      ensures ctl == AdjustedCtl(old(ctl), r, old(cnt[r][..]))
      ensures cnt[r][..] == AdjustedRow(old(ctl), r, old(cnt[r][..]))
      ensures cnt[r - 1][..] == AdjustedPrev(old(ctl), r, old(cnt[r - 1][..]), old(cnt[r][..]))
    {
      hide Loaded;
      hide Relieved;
      hide Sum;
      hide Pow2;
      hide Shrunk;
      hide NonZero;
      hide Maximum;
      NonZeroSome(cnt[r][..]);
      var sum, nonZero, max, iMax := Scan(cnt[r]);
      if max <= sum * 2 / nonZero {
        return;
      }
      if iMax == 0 && GrowRight(ctl[r - 1]).end < ctl[r].begin {
        GrowPrevious(r);
      }
      if ctl[r].order > 0 {
        ShrinkRange(r);
      }
    }

    /** One more hit in a range. */
    method Count(r: nat, t: nat)
      requires Valid() && r < 4 && t <= ctl[r].end
      modifies cnt[r]
      ensures Total() == old(Total()) + 1 && Sum(cnt[r][..]) > 0
      ensures var b := ctl[r].Index(t); b < 16 && cnt[r][..] == old(cnt[r][..])[b := old(cnt[r][b]) + 1]
    {
      hide Sum;
      hide Pow2;
      IndexIsLeast(ctl[r], t);
      var b := ctl[r].Index(t);
      SumUpdate(cnt[r][..], b, cnt[r][b] + 1);
      assert cnt[r][..][b := cnt[r][b] + 1] == cnt[r][..b] + [cnt[r][b] + 1] + cnt[r][b + 1..];
      cnt[r][b] := cnt[r][b] + 1;
      assert cnt[r][..] == old(cnt[r][..])[b := old(cnt[r][b]) + 1];
    }

    /** fw/apm.c:308-331, 373-374: the test for a new maximum is left out where there is a new minimum. */
    method Bounds(t: nat)
      modifies this`minVal, this`maxVal
      ensures (minVal, maxVal) == Bounded((old(minVal), old(maxVal)), t)
    {
      if t < minVal {
        minVal := t;
      } else if t > maxVal {
        maxVal := t;
      }
    }

    method CountIn(r: nat, t: nat)
      requires Valid() && 1 <= r < 4 && t <= ctl[r].end
      modifies this`ctl, cnt[r - 1], cnt[r]
      ensures Valid() && Total() == old(Total()) + 1
      ensures CountedIn(old(ctl), old(Contents()), r, t, ctl, Contents())
    {
      hide Sum;
      hide Shape;
      hide AdjustedCtl;
      hide AdjustedRow;
      hide AdjustedPrev;
      Count(r, t);
      Adjust(r);
    }

    /** Extending the last range for a response time beyond it: few hits are never lost. */
    method Reach(t: nat) returns (bug: bool)
      requires Valid() && t > ctl[3].end
      modifies this`ctl, cnt[3]
      ensures bug <==> ExtendedEnd(old(ctl[3]), t) >= TWO32
      ensures !bug ==> Valid() && t <= ctl[3].end && (old(Total()) < TWO32 ==> Total() == old(Total()))
      ensures !bug ==> ctl == ExtendedCtl(old(ctl), t) && Contents() == ExtendedRows(old(ctl), old(Contents()), t)
    {
      hide Sum;
      hide Pow2;
      hide Stretched;
      ghost var row := cnt[3][..];
      bug := Extend(t);
      if !bug && Sum(row) < TWO32 {
        ghost var n := ctl[3].order - old(ctl[3].order);
        StretchedFew(row, if n < 4 then n else 4);
      }
    }

    /** All counters are cleared, and the ranges stay as they are (fw/apm.c:799-802). */
    method Reset()
      requires Rows()
      modifies this`totCnt, this`totVal, this`minVal, this`maxVal, cnt
      ensures Total() == totCnt == 0 && minVal == UINT_MAX && maxVal == totVal == 0
    {
      hide Sum;
      ClearRow(cnt[0]);
      ClearRow(cnt[1]);
      ClearRow(cnt[2]);
      ClearRow(cnt[3]);
      totCnt, totVal, minVal, maxVal := 0, 0, UINT_MAX, 0;
    }

    /** A response time is counted where it belongs, and the range adjusted (fw/apm.c:341-370). */
    method Place(t: nat) returns (bug: bool)
      requires Valid()
      modifies this`ctl, cnt
      ensures bug <==> t > old(ctl[3].end) && ExtendedEnd(old(ctl[3]), t) >= TWO32
      ensures !bug ==> Valid() && (old(Total()) < TWO32 ==> Total() == old(Total()) + 1)
      ensures t <= old(ctl[3].end) ==> CountedIn(old(ctl), old(Contents()), RangeOf(old(ctl), t), t, ctl, Contents())
      ensures t > old(ctl[3].end) && !bug ==>
        && Shape(ExtendedCtl(old(ctl), t))
        && CountedIn(ExtendedCtl(old(ctl), t), ExtendedRows(old(ctl), old(Contents()), t), 3, t, ctl, Contents())
    {
      hide Sum;
      hide Shape;
      hide AdjustedCtl;
      hide Outlier;
      hide Total;
      hide ExtendedEnd;
      bug := false;
      ShapeFacts(ctl);
      if t <= ctl[2].end {
        if t > ctl[1].end {
          CountIn(2, t);
        } else if t > ctl[0].end {
          CountIn(1, t);
        } else {
          Count(0, t);
        }
      } else {
        hide CountedIn;
        if t > ctl[3].end {
          bug := Reach(t);
          if bug {
            return;
          }
        }
        CountIn(3, t);
      }
    }

    /** A response time is counted (fw/apm.c:337-379): in the range and bucket it belongs to, with
        the ranges adjusted. The result is the BUG_ON of an extended range. */
    method Update(t: nat) returns (bug: bool)
      requires Valid() && Total() == totCnt
      modifies this, cnt
      ensures bug <==> t > old(ctl[3].end) && ExtendedEnd(old(ctl[3]), t) >= TWO32
      ensures !bug ==> Valid() && totCnt == old(totCnt) + 1 && totVal == old(totVal) + t
      ensures !bug && old(totCnt) < TWO32 ==> Total() == totCnt
      ensures t <= old(ctl[3].end) ==> CountedIn(old(ctl), old(Contents()), RangeOf(old(ctl), t), t, ctl, Contents())
      ensures t > old(ctl[3].end) && !bug ==>
        && Shape(ExtendedCtl(old(ctl), t))
        && CountedIn(ExtendedCtl(old(ctl), t), ExtendedRows(old(ctl), old(Contents()), t), 3, t, ctl, Contents())
      ensures !bug ==> (minVal, maxVal) == Bounded((old(minVal), old(maxVal)), t)
    {
      hide Shape;
      hide CountedIn;
      hide ExtendedEnd;
      hide ExtendedCtl;
      hide ExtendedRows;
      hide Total;
      hide Contents;
      bug := Place(t);
      if bug {
        return;
      }
      Bounds(t);
      totVal := totVal + t;
      totCnt := totCnt + 1;
    }
  }

  lemma AdjustedEnd(ctl: seq<Ctl>, r: nat, row: seq<nat>)
    requires Shape(ctl) && 1 <= r < 4 && |row| == BUCKETS
    ensures |AdjustedCtl(ctl, r, row)| == RANGES && AdjustedCtl(ctl, r, row)[3].end == ctl[3].end
  {
    hide Outlier;
    hide Pow2;
  }

  /** Counting in a range does not move the end of the last one. */
  lemma CountedEnd(ctl: seq<Ctl>, rows: seq<seq<nat>>, r: nat, t: nat, ctl': seq<Ctl>, rows': seq<seq<nat>>)
    requires Shape(ctl) && Square(rows) && r < 4 && CountedIn(ctl, rows, r, t, ctl', rows')
    ensures |ctl'| == RANGES && ctl'[3].end == ctl[3].end
  {
    hide AdjustedCtl;
    if r > 0 {
      AdjustedEnd(ctl, r, Hit(rows[r], ctl[r].Index(t)));
    }
  }

  function ExtendedEnd(c: Ctl, t: nat): nat {
    c.begin + 15 * Pow2(ReachOrder(c.begin, c.order + 1, t))
  }

  lemma ShapeFacts(ctl: seq<Ctl>)
    requires Shape(ctl)
    ensures |ctl| == 4 && ctl[0].begin == 1 && ctl[0].end < ctl[1].end < ctl[2].end < ctl[3].end
  {
  }

  /** The smallest and the largest value so far, as the program keeps them. */
  function Bounded(b: (nat, nat), t: nat): (nat, nat) {
    if t < b.0 then (t, b.1) else if t > b.1 then (b.0, t) else b
  }

  // ----- what the statistics mean

  ghost function Track(ts: seq<nat>): (nat, nat) {
    if ts == [] then (UINT_MAX, 0) else Bounded(Track(ts[..|ts| - 1]), ts[|ts| - 1])
  }

  lemma {:induction false} TrackFacts(ts: seq<nat>)
    requires ts != [] && forall j :: 0 <= j < |ts| ==> ts[j] < UINT_MAX
    ensures var (lo, hi) := Track(ts);
            && lo in ts && (forall j :: 0 <= j < |ts| ==> lo <= ts[j])
            && (forall j :: 1 <= j < |ts| && ts[j] >= ts[0] ==> hi >= ts[j])
            && (hi == 0 || exists j :: 1 <= j < |ts| && hi == ts[j])
  {
    var n := |ts| - 1;
    var l := ts[..n];
    if n == 0 {
      assert Track(l) == (UINT_MAX, 0);
    } else {
      TrackFacts(l);
      var (lo, hi) := Track(l);
      assert l[0] == ts[0] && forall j :: 0 <= j < n ==> l[j] == ts[j];
      assert lo in ts by {
        assert lo in l;
      }
      var (lo', hi') := Track(ts);
      assert hi' == hi || hi' == ts[n];
      assert lo' == lo || lo' == ts[n];
      assert ts[n] in ts;
    }
  }

  /** The smallest value is kept right. The largest is not: a response time that is smaller than all
      before it is not looked at as a candidate, and the first one always is that. So it is right if
      and only if the first one is not the only largest. */
  lemma MaxIsRightIff(ts: seq<nat>)
    requires ts != [] && forall j :: 0 <= j < |ts| ==> ts[j] < UINT_MAX
    ensures Track(ts).0 in ts && forall j :: 0 <= j < |ts| ==> Track(ts).0 <= ts[j]
    ensures Track(ts).1 == Maximum(ts) <==> ts[0] <= Maximum(ts[1..])
  {
    TrackFacts(ts);
    MaximumAttained(ts[1..]);
    var hi, rest := Track(ts).1, ts[1..];
    if hi != 0 {
      var j :| 1 <= j < |ts| && hi == ts[j];
      assert rest[j - 1] == ts[j];
    }
    if rest != [] && ts[0] <= Maximum(rest) {
      var k :| 0 <= k < |rest| && rest[k] == Maximum(rest);
      assert ts[k + 1] == rest[k];
    }
  }

  /** Two response times, the second one smaller: the largest is taken for 0. */
  lemma MaxIsWrong(a: nat, b: nat)
    requires b < a < UINT_MAX
    ensures Track([a, b]) == (b, 0) && Maximum([a, b]) == a
  {
    assert [a, b][..1] == [a] && [a][..0] == [];
    assert Track([a]) == Bounded(Track([]), a) == (a, 0);
    assert [a, b][1..] == [b] && [b][1..] == [];
    assert Maximum([b]) == b;
  }

  lemma {:induction false} MaximumAttained(s: seq<nat>)
    ensures forall j :: 0 <= j < |s| ==> s[j] <= Maximum(s)
    ensures s != [] ==> exists j :: 0 <= j < |s| && s[j] == Maximum(s)
  {
    if s != [] {
      var rest := s[1..];
      MaximumAttained(rest);
      forall j | 0 <= j < |s| ensures s[j] <= Maximum(s) {
        assert j > 0 ==> s[j] == rest[j - 1];
      }
      if rest == [] || s[0] > Maximum(rest) {
        assert s[0] == Maximum(s);
      } else {
        var k :| 0 <= k < |rest| && rest[k] == Maximum(rest);
        assert s[k + 1] == Maximum(s);
      }
    }
  }

  /** When a range grows, the counter of bucket b goes to b / 2. That is the bucket in which its
      response times are counted from then on if and only if b is even: for an odd b the counter
      ends up one bucket below them. */
  lemma GrownHitIsRightIff(c: Ctl, t: nat)
    requires c.Scaled() && GrowRight(c).Scaled() && t <= c.end
    ensures GrowRight(c).Index(t) == (c.Index(t) + 1) / 2
    ensures GrowRight(c).Index(t) == c.Index(t) / 2 <==> c.Index(t) % 2 == 0
  {
    IndexIsLeast(c, t);
    var d := GrowRight(c);
    IndexIsLeast(d, t);
    assert Pow2(d.order) == 2 * Pow2(c.order);
    var p, b, e := Pow2(c.order), c.Index(t), d.Index(t);
    hide Pow2;
    if t > c.begin {
      UniqueBlock(t - c.begin, p, b, e);
    }
  }

  /** A response time of 2 in the first range: counted in bucket 1, and found in bucket 1 again
      after the range has grown, but the counter has gone to bucket 0. */
  lemma GrownHitIsWrong()
    ensures var c := InitialCtl()[0]; c.Index(2) == GrowRight(c).Index(2) == 1 && c.Index(2) / 2 == 0
  {
    var c := InitialCtl()[0];
    Pow2Values();
    IndexIsLeast(c, 2);
    IndexIsLeast(GrowRight(c), 2);
  }

  lemma UniqueBlock(x: nat, p: nat, b: nat, e: nat)
    requires p >= 1 && 1 <= x <= b * p && (b > 0 ==> (b - 1) * p < x)
    requires x <= e * (2 * p) && (e > 0 ==> (e - 1) * (2 * p) < x)
    ensures e == (b + 1) / 2
  {
    assert (2 * e) * p == e * (2 * p) && (2 * (e - 1)) * p == (e - 1) * (2 * p);
    if 2 * e < b {
      MulAtLeast(b - 1, 2 * e, p);
    }
    if 2 * (e - 1) >= b {
      MulAtLeast(2 * (e - 1), b, p);
    }
  }

  lemma DoubleUp(n: nat)
    requires n > 0
    ensures Pow2(n) > Pow2(n - 1)
  {}

  /** An extended range ends below twice the response time it was extended for. */
  lemma ExtendedBelow(c: Ctl, t: nat)
    requires c.Scaled() && t > c.end
    ensures ExtendedEnd(c, t) < 2 * t
  {
    var r := ReachOrder(c.begin, c.order + 1, t);
    assert Pow2(r) == 2 * Pow2(r - 1);
    hide Pow2;
    assert c.begin + 15 * Pow2(r - 1) < t;
  }

  /** Over any sequence of updates of a fresh entry, up to 2^32 of them: the sum of all buckets is
      the number of response times, whatever the ranges did on the way. No BUG_ON is met below
      2^31. */
  method UpdateAll(ts: seq<nat>) returns (rng: Ranges, bug: bool)
    requires |ts| <= TWO32
    ensures (forall j :: 0 <= j < |ts| ==> ts[j] <= TWO32 / 2) ==> !bug
    ensures !bug ==> rng.Valid() && rng.Total() == rng.totCnt == |ts| && rng.totVal == Sum(ts)
    ensures !bug ==> (rng.minVal, rng.maxVal) == Track(ts)
  {
    hide Sum;
    hide Shape;
    hide CountedIn;
    hide ExtendedEnd;
    hide Bounded;
    rng := new Ranges();
    bug := false;
    NoTimes();
    assert ts[..0] == [];
    for i := 0 to |ts|
      invariant !bug && fresh(rng) && rng.Valid() && forall r :: 0 <= r < 4 ==> fresh(rng.cnt[r])
      invariant rng.Total() == rng.totCnt == i && rng.totVal == Sum(ts[..i])
      invariant (rng.minVal, rng.maxVal) == Track(ts[..i])
    {
      SumNext(ts, i);
      assert ts[..i + 1][..i] == ts[..i];
      LastScaled(rng.ctl);
      if ts[i] > rng.ctl[3].end {
        ExtendedBelow(rng.ctl[3], ts[i]);
      }
      bug := rng.Update(ts[i]);
      if bug {
        return;
      }
    }
    assert ts[..|ts|] == ts;
  }

  lemma NoTimes()
    ensures Sum([]) == 0 && Track([]) == (UINT_MAX, 0)
  {}

  lemma LastScaled(ctl: seq<Ctl>)
    requires Shape(ctl)
    ensures |ctl| == 4 && ctl[3].Scaled()
  {}

  // ----- the first response of an entry

  lemma {:induction false} OnlyZeros(s: seq<nat>)
    requires Sum(s) == 0
    ensures s == Zeros(|s|)
  {
    if s != [] {
      OnlyZeros(s[1..]);
      assert s == [s[0]] + s[1..];
    }
  }

  lemma {:induction false} NonZeroAtMost(s: seq<nat>)
    ensures NonZero(s) <= Sum(s)
  {
    if s != [] {
      NonZeroAtMost(s[..|s| - 1]);
      SumNext(s, |s| - 1);
      assert s[..|s|] == s;
    }
  }

  /** A row with hits in a single bucket has no outlier. */
  lemma SingleHits(b: nat, x: nat)
    requires b < BUCKETS
    ensures !Outlier(Zeros(16)[b := x]) && Sum(Zeros(16)[b := x]) == x
  {
    hide Sum;
    var z, s, one := Zeros(16), Zeros(16)[b := x], Zeros(16)[b := 1];
    SumUpdate(z, b, x);
    SumUpdate(z, b, 1);
    MaximumIs(s, b);
    if x > 0 {
      SameNonZero(s, one);
      NonZeroAtMost(one);
    }
  }

  lemma {:induction false} SameNonZero(s: seq<nat>, t: seq<nat>)
    requires |s| == |t| && forall i :: 0 <= i < |s| ==> (s[i] == 0 <==> t[i] == 0)
    ensures NonZero(s) == NonZero(t)
  {
    if s != [] {
      SameNonZero(s[..|s| - 1], t[..|t| - 1]);
    }
  }

  /** The range reached by a first response of 65535 ms. */
  lemma LateRange()
    ensures var c := InitialCtl()[3]; ReachOrder(c.begin, c.order + 1, 65535) == 13 && ExtendedEnd(c, 65535) == 122989
    ensures Pow2(13) == 8192 && Ctl(13, 109, 122989).Index(65535) == 8 && Ctl(13, 109, 122989).Value(8) == 65645
  {
    Pow2Sevens();
    assert Pow2(13) == 8192 && Pow2(12) == 4096;
    var r := ReachOrder(109, 5, 65535);
    assert 109 + 15 * Pow2(13) >= 65535;
    assert InitialCtl()[3] == Ctl(4, 109, 349);
  }

  /** What counting it comes to. */
  lemma LateCounted(ctl: seq<Ctl>, rows: seq<seq<nat>>)
    requires var c, z := InitialCtl(), Zeros(16);
      && |c| == RANGES && Square([z, z, z, z]) && Shape(ExtendedCtl(c, 65535))
      && CountedIn(ExtendedCtl(c, 65535), ExtendedRows(c, [z, z, z, z], 65535), 3, 65535, ctl, rows)
    ensures ctl == InitialCtl()[3 := Ctl(13, 109, 122989)]
    ensures rows == [Zeros(16), Zeros(16), Zeros(16), Zeros(16)[8 := 1]]
  {
    hide Pow2;
    hide ReachOrder;
    hide Outlier;
    hide CountedIn;
    hide Shape;
    hide Sum;
    hide ExtendedCtl;
    hide ExtendedRows;
    hide Ctl.Index;
    var c, z := InitialCtl(), Zeros(16);
    var rows0 := ExtendedRows(c, [z, z, z, z], 65535);
    LateRange();
    LateRows();
    SingleHits(8, 1);
    NoOutlier(ExtendedCtl(c, 65535), rows0, 65535, ctl, rows);
  }

  lemma LateRows()
    ensures var c, z := InitialCtl(), Zeros(16);
      && |c| == RANGES && ExtendedRows(c, [z, z, z, z], 65535) == [z, z, z, z]
      && ExtendedCtl(c, 65535) == c[3 := Ctl(13, 109, 122989)]
  {
    hide Pow2;
    hide ReachOrder;
    hide Stretched;
    hide Sum;
    var z := Zeros(16);
    LateRange();
    StretchedFew(z, 4);
    OnlyZeros(Stretched(z, 4));
    assert [z, z, z, z][3 := z] == [z, z, z, z];
  }

  /** A hit that makes no outlier. */
  lemma NoOutlier(ctl: seq<Ctl>, rows: seq<seq<nat>>, t: nat, ctl': seq<Ctl>, rows': seq<seq<nat>>)
    requires Shape(ctl) && Square(rows) && CountedIn(ctl, rows, 3, t, ctl', rows')
    requires !Outlier(Hit(rows[3], ctl[3].Index(t)))
    ensures ctl' == ctl && rows' == rows[3 := Hit(rows[3], ctl[3].Index(t))]
  {
    hide Outlier;
    hide Hit;
    hide Ctl.Index;
    hide Shape;
  }

  /** A first response of 65535 ms: the last range reaches it, and bucket 8 of that range, which stands for
      65645 ms, has the hit. */
  method FirstIsLate() returns (rng: Ranges)
    ensures rng.Valid() && rng.Total() == rng.totCnt == 1
    ensures rng.ctl == InitialCtl()[3 := Ctl(13, 109, 122989)]
    ensures rng.Contents() == [Zeros(16), Zeros(16), Zeros(16), Zeros(16)[8 := 1]]
  {
    hide Pow2;
    hide ReachOrder;
    hide CountedIn;
    hide ExtendedCtl;
    hide ExtendedRows;
    hide Shape;
    hide Sum;
    rng := new Ranges();
    LateRange();
    assert InitialCtl()[3] == Ctl(4, 109, 349);
    hide InitialCtl;
    hide ExtendedEnd;
    rng.Untouched();
    var bug := rng.Update(65535);
    LateCounted(rng.ctl, rng.Contents());
  }

  // ----- the hits that the extension of a range loses

  lemma ManyCounted(n: nat, ctl: seq<Ctl>, rows: seq<seq<nat>>)
    requires var z := Zeros(16);
      && Square([z, z, z, z[0 := n]]) && Shape(InitialCtl())
      && CountedIn(InitialCtl(), [z, z, z, z[0 := n]], 3, 109, ctl, rows)
    ensures ctl == InitialCtl() && rows == [Zeros(16), Zeros(16), Zeros(16), Zeros(16)[0 := n + 1]]
  {
    hide Pow2;
    hide Outlier;
    hide CountedIn;
    hide Shape;
    hide Sum;
    var z := Zeros(16);
    var row := [z, z, z, z[0 := n]];
    assert InitialCtl()[3].Index(109) == 0 && Hit(row[3], 0) == z[0 := n + 1];
    SingleHits(0, n + 1);
    NoOutlier(InitialCtl(), row, 109, ctl, rows);
  }

  lemma ThreeOrders()
    ensures InitialCtl()[3] == Ctl(4, 109, 349) && ReachOrder(109, 5, 2000) == 7 && 109 + 15 * Pow2(7) == 2029
  {
    Pow2Values();
    assert 109 + 15 * Pow2(7) >= 2000;
  }

  /** A fresh entry with a number of responses of 109 ms: all are in the first bucket of the last range. */
  method SameTimes(n: nat) returns (rng: Ranges)
    requires n <= TWO32
    ensures fresh(rng) && (forall r :: 0 <= r < 4 ==> 0 <= r < |rng.cnt| && fresh(rng.cnt[r])) && rng.Valid()
    ensures rng.totCnt == rng.Total() == n && rng.ctl == InitialCtl()
    ensures rng.Contents() == [Zeros(16), Zeros(16), Zeros(16), Zeros(16)[0 := n]]
  {
    hide Pow2;
    hide ReachOrder;
    hide CountedIn;
    hide Shape;
    hide Stretched;
    hide ExtendedCtl;
    hide ExtendedRows;
    hide Sum;
    hide Ranges.Total;
    rng := new Ranges();
    ThreeOrders();
    ghost var z := Zeros(16);
    rng.Untouched();
    assert z[0 := 0] == z;
    for i := 0 to n
      invariant fresh(rng) && (forall r :: 0 <= r < 4 ==> fresh(rng.cnt[r])) && rng.Valid()
      invariant rng.totCnt == i == rng.Total() && rng.ctl == InitialCtl() && rng.Contents() == [z, z, z, z[0 := i]]
    {
      var bug := rng.Update(109);
      ManyCounted(i, rng.ctl, rng.Contents());
    }
  }

  /** 2^32 such responses are counted, and for the next one, of 2000 ms, the range is extended by three
      orders: the buckets no longer have all hits. */
  method ExtensionLoses() returns (rng: Ranges, bug: bool)
    ensures !bug && rng.Valid() && rng.totCnt == TWO32 && rng.Total() != rng.totCnt
  {
    hide Pow2;
    hide ReachOrder;
    hide Shape;
    hide Stretched;
    hide Sum;
    rng := SameTimes(TWO32);
    ThreeOrders();
    StretchedLoses();
    SingleHits(0, TWO32);
    assert Zeros(16)[0 := TWO32] == [TWO32] + Zeros(15);
    assert rng.cnt[3][..] == rng.Contents()[3];
    bug := rng.Extend(2000);
  }
}
