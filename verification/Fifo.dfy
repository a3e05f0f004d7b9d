/** The dynamic table of sections 2.3.2, 4.1, 4.3 and 4.4 of RFC 7541 as a plain list, oldest entry
    first. Both tables of the program, and the peer's, are measured against it. */
module Fifo {
  import opened Headers

  function TableSize(t: seq<Header>): nat {
    if t == [] then 0 else EntrySize(t[0]) + TableSize(t[1..])
  }

  /** Drops the oldest entries until the rest fits in limit. */
  function Evict(t: seq<Header>, limit: nat): seq<Header> {
    if TableSize(t) <= limit then t else Evict(t[1..], limit)
  }

  /** Adds an entry: room is made first; an entry larger than the table empties it. */
  function Add(t: seq<Header>, window: nat, h: Header): seq<Header> {
    if EntrySize(h) > window then [] else Evict(t, window - EntrySize(h)) + [h]
  }

  /** The i-th entry of the dynamic table, the newest being the first. */
  predicate HasIndex(t: seq<Header>, i: int) {
    1 <= i <= |t|
  }

  function AtIndex(t: seq<Header>, i: int): Header
    requires HasIndex(t, i)
  {
    t[|t| - i]
  }

  /** How many entries eviction drops. */
  function Dropped(t: seq<Header>, limit: nat): (k: nat)
    ensures k <= |t|
  {
    if TableSize(t) <= limit then 0 else 1 + Dropped(t[1..], limit)
  }

  /** Eviction drops a prefix, as short as possible. */
  lemma {:induction false} EvictIsMinimal(t: seq<Header>, limit: nat)
    ensures Evict(t, limit) == t[Dropped(t, limit)..]
    ensures TableSize(Evict(t, limit)) <= limit
    ensures forall j :: 0 <= j < Dropped(t, limit) ==> TableSize(t[j..]) > limit
  {
    if TableSize(t) > limit {
      var k := Dropped(t[1..], limit);
      EvictIsMinimal(t[1..], limit);
      assert t[1..][k..] == t[1 + k..];
      forall j | 0 <= j < 1 + k ensures TableSize(t[j..]) > limit {
        if j == 0 {
          assert t[0..] == t;
        } else {
          assert t[1..][j - 1..] == t[j..];
        }
      }
    } else {
      assert t[0..] == t;
    }
  }

  lemma {:induction false} TableSizeAppend(a: seq<Header>, b: seq<Header>)
    ensures TableSize(a + b) == TableSize(a) + TableSize(b)
  {
    if a == [] {
      assert a + b == b;
    } else {
      assert (a + b)[1..] == a[1..] + b;
      TableSizeAppend(a[1..], b);
    }
  }

  /** The table never outgrows its window. */
  lemma AddFits(t: seq<Header>, window: nat, h: Header)
    ensures TableSize(Add(t, window, h)) <= window
  {
    if EntrySize(h) <= window {
      EvictIsMinimal(t, window - EntrySize(h));
      TableSizeAppend(Evict(t, window - EntrySize(h)), [h]);
    }
  }
}
