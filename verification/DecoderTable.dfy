/** The dynamic table of the HPACK decoder (fw/hpack.c:754-1012): a circular buffer of entries that
    grows, measured against the plain list of module Fifo. */
module DecoderTable {
  import opened Headers
  import opened Powers
  import Fifo

  /** The size of an entry (fw/hpack.h:152-158). */
  const ENTRY_BYTES := 32

  /** A place of the ring: one that was not written, or an entry. */
  datatype Slot = Unset | Set(hdr: Header)

  datatype Status = Ok | EINVAL | ENOMEM

  /** What the allocator answers: a larger ring can be had, in the same place or another one, and the
      new header can be stored. */
  datatype Memory = Memory(ring: bool, inPlace: bool, header: bool)

  /** What a lookup gives: an entry of the static table, a header of the dynamic one, or nothing. */
  datatype Lookup = Static(i: int) | Dynamic(hdr: Header) | Missing

  /** The place of the j-th oldest of n entries in a ring of the given length whose next free place
      is curr. */
  function Place(curr: nat, n: nat, length: nat, j: nat): (p: nat)
    requires j < n <= length && curr < length
    ensures p < length
  {
    if curr + j >= n then curr + j - n else curr + j + length - n
  }

  ghost predicate Live(slots: seq<Slot>, curr: nat, n: nat) {
    && n <= |slots| && (curr < |slots| || (curr == 0 && |slots| == 0))
    && forall j :: 0 <= j < n ==> slots[Place(curr, n, |slots|, j)].Set?
  }

  /** The entries in the ring, oldest first. */
  ghost function List(slots: seq<Slot>, curr: nat, n: nat): (t: seq<Header>)
    requires Live(slots, curr, n)
    ensures |t| == n && forall j :: 0 <= j < n ==> t[j] == slots[Place(curr, n, |slots|, j)].hdr
  {
    seq(n, j requires 0 <= j < n => slots[Place(curr, n, |slots|, j)].hdr)
  }

  /** Dropping the oldest entries is counting fewer of them. */
  lemma DropOldest(slots: seq<Slot>, curr: nat, n: nat, k: nat)
    requires Live(slots, curr, n) && k <= n
    ensures Live(slots, curr, n - k) && List(slots, curr, n - k) == List(slots, curr, n)[k..]
  {
    var m := n - k;
    forall j | 0 <= j < m ensures Place(curr, m, |slots|, j) == Place(curr, n, |slots|, j + k) {}
  }

  function Following(curr: nat, length: nat): nat {
    if curr + 1 == length then 0 else curr + 1
  }

  /** Writing the next entry. */
  lemma Put(slots: seq<Slot>, curr: nat, n: nat, h: Header)
    requires Live(slots, curr, n) && n < |slots|
    ensures var s := slots[curr := Set(h)]; var c := Following(curr, |slots|);
            Live(s, c, n + 1) && List(s, c, n + 1) == List(slots, curr, n) + [h]
  {
    var s, c, m := slots[curr := Set(h)], Following(curr, |slots|), n + 1;
    forall j | 0 <= j < n ensures Place(c, m, |s|, j) == Place(curr, n, |slots|, j) != curr {}
    assert Place(c, m, |s|, n) == curr;
    forall j | 0 <= j < m ensures s[Place(c, m, |s|, j)].Set? {
      if j < n {
        assert slots[Place(curr, n, |slots|, j)].Set?;
      }
    }
  }

  /** Writing the next entry does not bring back those that are missing. */
  lemma PutBroken(slots: seq<Slot>, curr: nat, n: nat, h: Header)
    requires !Live(slots, curr, n) && n < |slots| && curr < |slots|
    ensures !Live(slots[curr := Set(h)], Following(curr, |slots|), n + 1)
  {
    var s, c, m := slots[curr := Set(h)], Following(curr, |slots|), n + 1;
    if Live(s, c, m) {
      forall j | 0 <= j < n ensures slots[Place(curr, n, |slots|, j)].Set? {
        assert Place(c, m, |s|, j) == Place(curr, n, |slots|, j) != curr;
      }
    }
  }

  /** A ring of n new places. */
  function Unused(n: nat): (s: seq<Slot>)
    ensures |s| == n && forall i :: 0 <= i < n ==> s[i] == Unset
  {
    seq(n, _ => Unset)
  }

  /** What growing is meant to be (fw/hpack.c:861-889): a full ring gets twice the length, as it is, if it
      can be extended in place and its entries start at its beginning; with the older part moved to the
      new end, if it can be extended in place; otherwise copied, in order, to another place. */
  function Doubled(slots: seq<Slot>, curr: nat, inPlace: bool): (r: (seq<Slot>, nat))
    requires curr < |slots|
    ensures |r.0| == 2 * |slots| && r.1 < |r.0|
  {
    var n := |slots|;
    if curr == 0 && inPlace then (slots + Unused(n), n)
    else if inPlace then (slots + Unused(curr) + slots[curr..], curr)
    else (slots[curr..] + slots[..curr] + Unused(n), n)
  }

  /** Growing keeps the entries and their order. */
  lemma DoubledKeeps(slots: seq<Slot>, curr: nat, inPlace: bool)
    requires Live(slots, curr, |slots|) && curr < |slots|
    ensures var (s, c) := Doubled(slots, curr, inPlace);
            Live(s, c, |slots|) && List(s, c, |slots|) == List(slots, curr, |slots|)
  {
    var n := |slots|;
    var (s, c) := Doubled(slots, curr, inPlace);
    forall j | 0 <= j < n ensures s[Place(c, n, 2 * n, j)] == slots[Place(curr, n, n, j)] {
      var p, q := Place(c, n, 2 * n, j), Place(curr, n, n, j);
      if curr == 0 && inPlace {
        assert p == q == j;
      } else if inPlace {
        if curr + j >= n {
          assert p == q < curr;
        } else {
          assert q == curr + j && p == curr + j + n;
          assert s[p] == slots[curr..][p - n - curr];
        }
      } else {
        assert p == j;
      }
    }
  }

  // ----- growing, as it is written: byte counts are added to pointers to entries

  /** Part of a ring overwritten with cnt entries of the memory from src on. */
  function Copied(base: seq<Slot>, dst: nat, from: nat -> Slot, src: nat, cnt: nat): (s: seq<Slot>)
    ensures |s| == |base|
    ensures forall i :: 0 <= i < |base| ==> s[i] == if dst <= i < dst + cnt then from(src + i - dst) else base[i]
  {
    seq(|base|, i requires 0 <= i < |base| => if dst <= i < dst + cnt then from(src + i - dst) else base[i])
  }

  /** A full ring of twice the length (fw/hpack.c:861-889), the counts of bytes being unit times those of
      entries; beyond is the memory behind the old ring. */
  function DoubledInC(slots: seq<Slot>, curr: nat, inPlace: bool, unit: nat, beyond: nat -> Slot): (seq<Slot>, nat)
    requires curr < |slots|
  {
    var n := |slots|;
    var memory := (i: nat) => if i < |slots| then slots[i] else beyond(i);
    var wrap, tail := unit * curr, unit * (n - curr);
    if curr == 0 && inPlace then (slots + Unused(n), n)
    else if inPlace then (Copied(slots + Unused(n), unit * (n + curr), memory, wrap, n - curr), curr)
    else (Copied(Copied(Unused(2 * n), 0, memory, wrap, n - curr), tail, memory, 0, curr), n)
  }

  /** In units of entries it would be what was meant. */
  lemma DoubledInUnits(slots: seq<Slot>, curr: nat, inPlace: bool, beyond: nat -> Slot)
    requires curr < |slots|
    ensures DoubledInC(slots, curr, inPlace, 1, beyond) == Doubled(slots, curr, inPlace)
  {
    var s, t := DoubledInC(slots, curr, inPlace, 1, beyond).0, Doubled(slots, curr, inPlace).0;
    forall i | 0 <= i < 2 * |slots| ensures s[i] == t[i] {}
    assert s == t;
  }

  /** A ring that has wrapped: the place of some entry is not written. */
  lemma WrappedGrowth(slots: seq<Slot>, curr: nat, inPlace: bool, unit: nat, beyond: nat -> Slot)
    requires 0 < curr < |slots| && unit >= 2
    ensures var (s, c) := DoubledInC(slots, curr, inPlace, unit, beyond); !Live(s, c, |slots|)
  {
    hide Live;
    var n := |slots|;
    var (s, c) := DoubledInC(slots, curr, inPlace, unit, beyond);
    if inPlace {
      MulAtLeast(unit, 2, n + curr);
      assert s[n + curr] == Unset;
      assert Place(c, n, 2 * n, 0) == n + curr;
      NotLive(s, c, n, 0);
    } else {
      MulAtLeast(unit, 2, n - curr);
      assert s[n - curr] == Unset;
      assert Place(c, n, 2 * n, n - curr) == n - curr;
      NotLive(s, c, n, n - curr);
    }
  }

  /** Copied to another place, a ring that has wrapped is not what the fields say either. */
  lemma WrappedMoves(slots: seq<Slot>, curr: nat, unit: nat, beyond: nat -> Slot)
    requires 0 < curr < |slots| && unit >= 4
    ensures !Live(DoubledInC(slots, curr, false, unit, beyond).0, curr, |slots|)
  {
    hide Live;
    var n, d := |slots|, |slots| - curr;
    var s := DoubledInC(slots, curr, false, unit, beyond).0;
    MulAtLeast(unit, 4, d);
    if unit * d > n + curr {
      assert s[n + curr] == Unset && Place(curr, n, 2 * n, 0) == n + curr;
      NotLive(s, curr, n, 0);
    } else {
      assert s[d] == Unset && Place(curr, n, 2 * n, 2 * d) == d;
      NotLive(s, curr, n, 2 * d);
    }
  }

  lemma NotLive(slots: seq<Slot>, curr: nat, n: nat, j: nat)
    requires j < n <= |slots| && curr < |slots| && slots[Place(curr, n, |slots|, j)] == Unset
    ensures !Live(slots, curr, n)
  {}

  /** As an entry has more than one byte, the entries are kept if and only if the next place is the first
      one: any other full ring, one that has wrapped, loses entries. */
  lemma GrowthIsRightIff(slots: seq<Slot>, curr: nat, inPlace: bool, unit: nat, beyond: nat -> Slot)
    requires Live(slots, curr, |slots|) && curr < |slots| && unit >= 2
    ensures var (s, c) := DoubledInC(slots, curr, inPlace, unit, beyond);
            (Live(s, c, |slots|) && List(s, c, |slots|) == List(slots, curr, |slots|)) <==> curr == 0
  {
    hide Live;
    hide List;
    if curr == 0 {
      var n := |slots|;
      var (s, c) := DoubledInC(slots, 0, inPlace, unit, beyond);
      assert unit * 0 == 0;
      assert s == slots + Unused(n) && c == n;
      DoubledKeeps(slots, 0, true);
    } else {
      WrappedGrowth(slots, curr, inPlace, unit, beyond);
    }
  }

  lemma {:induction false} TableSizeTail(t: seq<Header>, k: nat)
    requires k < |t|
    ensures Fifo.TableSize(t[k..]) == EntrySize(t[k]) + Fifo.TableSize(t[k + 1..])
  {
    assert t[k..][1..] == t[k + 1..];
  }

  /** The length of a ring of n entries when another one has been added. */
  function Length(n: nat, length: nat): nat {
    if n < length then length else if n == 0 then 32 else 2 * n
  }

  class DecTable {
    var entries: seq<Slot>
    var n: nat
    var curr: nat
    var size: nat
    var window: nat

    constructor (window0: nat)
      requires window0 < TWO32
      ensures Valid() && Table() == [] && window == window0 && n == |entries| == curr == 0
    {
      entries, n, curr, size, window := [], 0, 0, 0, window0;
    }

    ghost predicate Valid()
      reads this
    {
      Live(entries, curr, n) && size == Fifo.TableSize(List(entries, curr, n)) <= window < TWO32
    }

    /** The table as a list, oldest entry first. */
    ghost function Table(): seq<Header>
      requires Valid()
      reads this
    {
      List(entries, curr, n)
    }

    /** The place of the oldest entry (fw/hpack.c:791-795). */
    function Early(): nat
      requires n > 0 && n <= |entries| && curr < |entries|
      reads this
    {
      if curr >= n then curr - n else curr + (|entries| - n)
    }

    /** Dropping the oldest entries until the size is within the limit, at least one of them
        (fw/hpack.c:802-816 and 985-1003): how many are left, and their size. */
    method DropUntil(limit: nat) returns (count: nat, size': nat)
      requires Valid() && size > limit
      ensures count <= n && size' == Fifo.TableSize(Table()[n - count..]) <= limit
      ensures Table()[n - count..] == Fifo.Evict(Table(), limit)
    {
      ghost var t := Table();
      assert t[0..] == t;
      var early := Early();
      count, size' := n, size;
      ghost var k := 0;
      while size' > limit
        invariant k <= n && count == n - k && size' == Fifo.TableSize(t[k..])
        invariant k < n ==> early == Place(curr, n, |entries|, k)
        invariant Fifo.Evict(t, limit) == Fifo.Evict(t[k..], limit)
        decreases count
      {
        TableSizeTail(t, k);
        assert t[k..][1..] == t[k + 1..];
        size' := size' - EntrySize(entries[early].hdr);
        early := early + 1;
        count := count - 1;
        if early == |entries| {
          early := 0;
        }
        k := k + 1;
      }
    }

    /** Setting the window (fw/hpack.c:961-1012). */
    method SetLength(newSize: nat, maxWindow: nat) returns (r: Status)
      requires Valid() && maxWindow < TWO32
      modifies this`n, this`size, this`window
      ensures Valid() && (r == Ok <==> newSize <= maxWindow) && r != ENOMEM
      ensures if r == Ok then window == newSize && Table() == Fifo.Evict(old(Table()), newSize)
              else window == old(window) && Table() == old(Table())
    {
      if newSize > maxWindow {
        return EINVAL;
      }
      if size > newSize {
        var count, size' := DropUntil(newSize);
        DropOldest(entries, curr, n, n - count);
        n, size := count, size';
      }
      window := newSize;
      r := Ok;
    }

    /** Finding the entry for an index (fw/hpack.c:930-959). For index 0, which an indexed field cannot have,
        the place is the one before the static table. */
    method FindIndex(index: nat) returns (r: Lookup)
      requires Valid()
      ensures r.Static? <==> index <= STATIC_ENTRIES
      ensures r.Static? ==> r.i == index - 1
      ensures r.Dynamic? <==> index > STATIC_ENTRIES && Fifo.HasIndex(Table(), index - STATIC_ENTRIES)
      ensures r.Dynamic? ==> r.hdr == Fifo.AtIndex(Table(), index - STATIC_ENTRIES)
    {
      if index <= STATIC_ENTRIES {
        return Static(index - 1);
      }
      var i := index - STATIC_ENTRIES;
      if i > n {
        return Missing;
      }
      var place := if i <= curr then curr - i else curr + (|entries| - i);
      assert place == Place(curr, n, |entries|, n - i);
      r := Dynamic(entries[place].hdr);
    }

    /** The entry is larger than the table: it is emptied (fw/hpack.c:819-854). */
    method Clear()
      requires Valid()
      modifies this`n, this`curr, this`size
      ensures Valid() && Table() == []
    {
      if n > 0 {
        n, curr, size := 0, 0, 0;
      }
    }

    /** Storing the header at the next place (fw/hpack.c:904-922). The place is a local of the
        caller, and so are the count and the size after evictions. */
    method Store(h: Header, place: nat, count: nat, size': nat, mem: Memory) returns (r: Status)
      requires place < |entries|
      modifies this`entries, this`n, this`curr, this`size
      ensures r == if mem.header then Ok else ENOMEM
      ensures if r == Ok then entries == old(entries)[place := Set(h)] && n == count + 1 && size == size'
                              && curr == Following(place, |entries|)
              else entries == old(entries) && n == old(n) && curr == old(curr) && size == old(size)
    {
      if !mem.header {
        return ENOMEM;
      }
      entries := entries[place := Set(h)];
      curr := if place + 1 == |entries| then 0 else place + 1;
      n, size := count + 1, size';
      r := Ok;
    }

    /** A full ring that has wrapped. */
    ghost predicate Wrapped()
      reads this
    {
      n == |entries| && curr != 0
    }

    /** Making the ring larger (fw/hpack.c:855-902). The place of the next entry may change; it is
        the caller that keeps it. A ring that has wrapped loses entries; any other one is the same list,
        which the fields of the table do not know. */
    method Grow(mem: Memory, beyond: nat -> Slot) returns (ok: bool, place: nat)
      requires Valid() && n == |entries|
      modifies this`entries
      ensures ok == mem.ring
      ensures !ok ==> entries == old(entries)
      ensures ok ==> |entries| == (if n == 0 then 32 else 2 * n) && place < |entries|
      ensures ok && !old(Wrapped()) ==> Live(entries, place, n) && List(entries, place, n) == old(Table())
      ensures ok && old(Wrapped()) ==> !Live(entries, place, n)
      ensures ok && n == 0 ==> place == curr
      ensures ok && n > 0 ==> !Live(entries, curr, n)
    {
      hide Live;
      hide List;
      place := curr;
      ok := mem.ring;
      if !ok {
        return;
      }
      LiveFacts(entries, curr, n);
      if |entries| == 0 {
        NoEntries(entries, curr, Unused(32));
        entries := Unused(32);
      } else {
        GrowthIsRightIff(entries, curr, mem.inPlace, ENTRY_BYTES, beyond);
        if curr != 0 { WrappedGrowth(entries, curr, mem.inPlace, ENTRY_BYTES, beyond); }
        FieldsAreWrong(entries, curr, mem.inPlace, beyond);
        var grown := DoubledInC(entries, curr, mem.inPlace, ENTRY_BYTES, beyond);
        entries, place := grown.0, grown.1;
      }
    }

    /** The ring grows: the table does not know it until the new entry is stored. */
    ghost predicate Moves(h: Header, mem: Memory)
      reads this
    {
      size + EntrySize(h) <= window && n == |entries| > 0 && mem.ring
    }

    /** The table is the list, or was moved behind the back of its fields. */
    ghost predicate Holds(t: seq<Header>)
      reads this
    {
      Live(entries, curr, n) && List(entries, curr, n) == t
    }

    /** Room is made for the entry (fw/hpack.c:787-818). */
    method AddEvicting(h: Header, mem: Memory) returns (r: Status)
      requires Valid() && EntrySize(h) <= window < size + EntrySize(h)
      modifies this`entries, this`n, this`curr, this`size
      ensures r == if mem.header then Ok else ENOMEM
      ensures if r == Ok then Valid() && Table() == Fifo.Add(old(Table()), window, h) else Holds(old(Table()))
      ensures r == Ok ==> |entries| == old(|entries|) > 0 && curr == Following(old(curr), |entries|)
    {
      hide Live;
      hide List;
      hide Place;
      var delta := EntrySize(h);
      var count, rest := DropUntil(window - delta);
      DropOldest(entries, curr, n, n - count);
      LiveFacts(entries, curr, n);
      Put(entries, curr, count, h);
      Fifo.TableSizeAppend(List(entries, curr, count), [h]);
      r := Store(h, curr, count, rest + delta, mem);
    }

    /** There is room for the entry, if need be in a larger ring. */
    method AddGrowing(h: Header, mem: Memory, beyond: nat -> Slot) returns (r: Status)
      requires Valid() && size + EntrySize(h) <= window
      modifies this`entries, this`n, this`curr, this`size
      ensures r == Ok || r == ENOMEM
      ensures r == ENOMEM <==> !mem.header || (old(n == |entries|) && !mem.ring)
      ensures r == Ok ==> n == old(n) + 1 && |entries| == Length(old(n), old(|entries|))
      ensures r == Ok && !old(n == |entries| > 0) ==> curr == Following(old(curr), |entries|)
      ensures r == Ok ==> if old(Wrapped()) then !Valid() else Valid() && Table() == old(Table()) + [h]
      ensures r == ENOMEM ==> (Holds(old(Table())) <==> !old(Moves(h, mem)))
    {
      hide Live;
      hide List;
      hide Place;
      LiveFacts(entries, curr, n);
      var place := curr;
      if n == |entries| {
        var ok;
        ok, place := Grow(mem, beyond);
        if !ok {
          return ENOMEM;
        }
      }
      if old(Wrapped()) {
        PutBroken(entries, place, n, h);
      } else {
        Put(entries, place, n, h);
        Fifo.TableSizeAppend(List(entries, place, n), [h]);
      }
      r := Store(h, place, n, size + EntrySize(h), mem);
    }

    /** Adding an entry (fw/hpack.c:754-928), with the program's 32-bit arithmetic. What it does is
        the addition to a plain list, unless a ring that has wrapped must grow for it. When there is no
        memory the table stays as it was, if and only if the ring has not just grown. */
    method AddIndex(h: Header, mem: Memory, beyond: nat -> Slot) returns (r: Status)
      requires Valid()
      modifies this`entries, this`n, this`curr, this`size
      ensures r == EINVAL <==> EntrySize(h) >= TWO32
      ensures r == EINVAL ==> Valid() && Table() == old(Table())
      ensures r == Ok ==> if old(size) + EntrySize(h) <= window && old(Wrapped()) then !Valid()
                          else Valid() && Table() == Fifo.Add(old(Table()), window, h)
      ensures r == Ok && old(size) + EntrySize(h) <= window ==>
        n == old(n) + 1 && |entries| == Length(old(n), old(|entries|))
      ensures r == Ok && old(size) + EntrySize(h) <= window && !old(n == |entries| > 0) ==>
        curr == Following(old(curr), |entries|)
      ensures r == Ok && EntrySize(h) <= window < old(size) + EntrySize(h) ==>
        |entries| == old(|entries|) > 0 && curr == Following(old(curr), |entries|)
      ensures r == ENOMEM <==>
        && EntrySize(h) <= window
        && (!mem.header || (old(size + EntrySize(h) <= window && n == |entries|) && !mem.ring))
      ensures r == ENOMEM ==> (Holds(old(Table())) <==> !old(Moves(h, mem)))
    {
      hide Live;
      hide List;
      var len := Len(h);
      var delta := (ENTRY_OVERHEAD + len) % TWO32;
      if delta < len {
        return EINVAL;
      }
      var newSize := (size + delta) % TWO32;
      if newSize > window || newSize < delta {
        if delta > window {
          Clear();
          return Ok;
        }
        r := AddEvicting(h, mem);
      } else {
        r := AddGrowing(h, mem, beyond);
      }
    }
  }

  lemma LiveFacts(slots: seq<Slot>, curr: nat, n: nat)
    requires Live(slots, curr, n)
    ensures n <= |slots| && (curr < |slots| || (curr == 0 && |slots| == 0))
  {}

  /** The fields of a table that was moved but do not say so point at unused places. */
  lemma MovedIsBroken(slots: seq<Slot>, curr: nat, n: nat)
    requires curr < n < |slots| && |slots| >= 2 * n - curr && forall i :: n <= i < |slots| ==> slots[i] == Unset
    ensures !Live(slots, curr, n)
  {
    assert Place(curr, n, |slots|, 0) == curr + |slots| - n;
  }

  lemma NoEntries(a: seq<Slot>, curr: nat, b: seq<Slot>)
    requires Live(a, curr, 0) && curr < |b|
    ensures Live(b, curr, 0) && List(b, curr, 0) == List(a, curr, 0)
  {}

  lemma FieldsAreWrong(slots: seq<Slot>, curr: nat, inPlace: bool, beyond: nat -> Slot)
    requires curr < |slots|
    ensures var s := DoubledInC(slots, curr, inPlace, ENTRY_BYTES, beyond).0;
            |s| == 2 * |slots| && !Live(s, curr, |slots|)
  {
    hide Live;
    var n := |slots|;
    var s := DoubledInC(slots, curr, inPlace, ENTRY_BYTES, beyond).0;
    if curr == 0 {
      MovedIsBroken(s, 0, n);
    } else if inPlace {
      WrappedGrowth(slots, curr, true, ENTRY_BYTES, beyond);
    } else {
      WrappedMoves(slots, curr, ENTRY_BYTES, beyond);
    }
  }

  lemma FittingAdds(t: seq<Header>, window: nat, h: Header)
    requires Fifo.TableSize(t) + EntrySize(h) <= window
    ensures Fifo.Add(t, window, h) == t + [h] && Fifo.TableSize(t + [h]) == Fifo.TableSize(t) + EntrySize(h)
  {
    Fifo.TableSizeAppend(t, [h]);
  }

  /** A fresh table to which 32 entries are added: its first ring is full, and the next place is the
      first one. */
  method Fill(h: Header, window: nat, beyond: nat -> Slot) returns (tbl: DecTable, ghost t: seq<Header>)
    requires 32 * EntrySize(h) <= window < TWO32
    ensures |t| == 32 && (forall i :: 0 <= i < 32 ==> t[i] == h) && Fifo.TableSize(t) == 32 * EntrySize(h)
    ensures fresh(tbl) && tbl.Valid() && tbl.window == window && tbl.Table() == t
    ensures tbl.n == |tbl.entries| == 32 && tbl.curr == 0
  {
    hide DecTable.Holds;
    hide Live;
    hide List;
    hide Fifo.Add;
    tbl := new DecTable(window);
    t := [];
    ghost var e := EntrySize(h);
    assert Fifo.TableSize([]) == 0;
    hide Fifo.TableSize;
    hide EntrySize;
    for i := 0 to 32
      invariant fresh(tbl) && tbl.Valid() && tbl.window == window && tbl.Table() == t && |t| == tbl.n == i
      invariant (forall j :: 0 <= j < i ==> t[j] == h) && Fifo.TableSize(t) == i * e
      invariant |tbl.entries| == (if i == 0 then 0 else 32) && tbl.curr == if i == 32 then 0 else i
    {
      MulAtLeast(32, i + 1, e);
      MulAdd(i, 1, e);
      FittingAdds(t, window, h);
      var r := tbl.AddIndex(h, Memory(true, false, true), beyond);
      t := t + [h];
    }
  }

  /** There is no memory for the header of the next one just when the ring has been moved: the table is
      not what it was. */
  method FirstGrowthFails(h: Header, window: nat, beyond: nat -> Slot)
      returns (tbl: DecTable, r: Status, ghost t: seq<Header>)
    requires 33 * EntrySize(h) <= window < TWO32
    ensures |t| == 32 && (forall i :: 0 <= i < 32 ==> t[i] == h) && r == ENOMEM && !tbl.Holds(t)
  {
    hide DecTable.Holds;
    hide Live;
    hide List;
    hide Fifo.Add;
    tbl, t := Fill(h, window, beyond);
    r := tbl.AddIndex(h, Memory(true, false, false), beyond);
  }

  /** The full ring makes way for the shorter header h: one entry goes for it. */
  lemma OneGoes(t: seq<Header>, window: nat, g: Header, h: Header)
    requires |t| == 32 && t[0] == g && Fifo.TableSize(t) == 32 * EntrySize(g) == window
    requires 2 * EntrySize(h) <= EntrySize(g)
    ensures Fifo.Add(t, window, h) == t[1..] + [h]
    ensures Fifo.TableSize(t[1..] + [h]) + EntrySize(h) <= window
  {
    Fifo.TableSizeAppend(t[1..], [h]);
    assert Fifo.Evict(t[1..], window - EntrySize(h)) == t[1..];
  }

  /** A ring that has wrapped is reached and outgrown: 32 headers fill the window and the ring, a shorter one
      takes the place of the oldest, and another shorter one has room in the window but not in the ring.
      It is added, and entries are lost. Headers of 48 and 8 bytes and a window of 2560 are such. */
  method WrappedRingLoses(g: Header, h: Header, window: nat, inPlace: bool, beyond: nat -> Slot)
      returns (tbl: DecTable, first: Status, second: Status)
    requires 32 * EntrySize(g) == window < TWO32 && 2 * EntrySize(h) <= EntrySize(g)
    ensures first == second == Ok && !tbl.Valid()
  {
    hide DecTable.Holds;
    hide Live;
    hide List;
    hide Fifo.Add;
    ghost var t;
    tbl, t := Fill(g, window, beyond);
    OneGoes(t, window, g, h);
    hide Fifo.TableSize;
    hide EntrySize;
    first := tbl.AddIndex(h, Memory(true, true, true), beyond);
    second := tbl.AddIndex(h, Memory(true, inPlace, true), beyond);
  }
}
