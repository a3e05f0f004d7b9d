/** The layout of a cached response (fw/cache.c:546-730, 1050-1265, 1425-1573, 1620-1707, 2084-2166): the
    size that is computed beforehand, what is written, and what is read back. */
module CacheRecord {
  import opened Headers
  import PrefixInt

  /** What a place of the record holds: a byte, or the head of a string, which takes eight places. */
  datatype Cell = Byte(b: byte) | Head(dup: bool, len: nat) | Pad

  const HEAD_LEN := 8
  const MAX_LEN := 0x100_0000_0000_0000
  /** The size of the buffer for an integer (fw/hpack.h:220-226). */
  const INT_BUF := 3
  /** Places in the header table: the first regular header, and Server. */
  const REGULAR := 4
  const SERVER := 7
  /** Static indexes of the headers that are added. */
  const IDX_SERVER := 54
  const IDX_VIA := 60
  const IDX_STATUS := 8

  /** A header: its static index, or 0, its name and value. */
  datatype Hdr = Hdr(idx: nat, name: Bytes, value: Bytes)

  /** A place of the header table: empty, a header, or several of one name. */
  datatype Field = Field(hopByHop: bool, dup: bool, hdrs: seq<Hdr>) {
    predicate Ok() {
      !dup ==> |hdrs| <= 1
    }
  }

  /** The response: its key (path and host), status, with its index or 0, reason phrase, headers from the
      first regular one on, and body. */
  datatype Resp = Resp(key: Bytes, statusIdx: nat, statusText: Bytes, reason: Bytes, table: seq<Field>, body: Bytes)
  {
    predicate Ok() {
      statusIdx < 0x7F && |statusText| == 3 && forall i :: 0 <= i < |table| ==> table[i].Ok()
    }
  }

  // ----- what is stored

  function Lower(s: Bytes): (r: Bytes)
    ensures |r| == |s|
  {
    seq(|s|, i requires 0 <= i < |s| => if 65 <= s[i] <= 90 then s[i] + 32 else s[i])
  }

  function Int(v: nat, max: nat): Bytes
    requires max < 256
  {
    PrefixInt.Encoded(v, max, 0)
  }

  function NameBytes(h: Hdr): Bytes {
    if h.idx != 0 then Int(h.idx, 0xF) else Int(0, 0xF) + Int(|h.name|, 0x7F) + Lower(h.name)
  }

  /** A header in the representation of section 6.2.2 of RFC 7541. */
  function HdrBytes(h: Hdr): Bytes {
    NameBytes(h) + Int(|h.value|, 0x7F) + h.value
  }

  function Cells(s: Bytes): (c: seq<Cell>)
    ensures |c| == |s| && forall i :: 0 <= i < |s| ==> c[i] == Byte(s[i])
  {
    seq(|s|, i requires 0 <= i < |s| => Byte(s[i]))
  }

  function HeadCells(dup: bool, len: nat): (c: seq<Cell>)
    ensures |c| == HEAD_LEN && c[0] == Head(dup, len)
  {
    [Head(dup, len), Pad, Pad, Pad, Pad, Pad, Pad, Pad]
  }

  function HdrCells(h: Hdr): seq<Cell> {
    HeadCells(false, |HdrBytes(h)|) + Cells(HdrBytes(h))
  }

  function AllCells(hs: seq<Hdr>): seq<Cell> {
    if hs == [] then [] else AllCells(hs[..|hs| - 1]) + HdrCells(hs[|hs| - 1])
  }

  function FieldCells(f: Field): seq<Cell> {
    if f.dup then HeadCells(true, |f.hdrs|) + AllCells(f.hdrs) else AllCells(f.hdrs)
  }

  /** The headers that are stored: not the hop-by-hop ones, nor Server, nor empty places. */
  predicate Stored(table: seq<Field>, i: nat)
    requires i < |table|
  {
    !table[i].hopByHop && REGULAR + i != SERVER && table[i].hdrs != []
  }

  function Kept(table: seq<Field>, n: nat): (fs: seq<Field>)
    requires n <= |table|
    ensures |fs| <= n
  {
    if n == 0 then [] else Kept(table, n - 1) + if Stored(table, n - 1) then [table[n - 1]] else []
  }

  function TableCells(fs: seq<Field>): seq<Cell> {
    if fs == [] then [] else TableCells(fs[..|fs| - 1]) + FieldCells(fs[|fs| - 1])
  }

  // ----- the size beforehand

  /** fw/http.c:3946-3963 */
  method HdrSize(h: Hdr) returns (size: nat)
    ensures size == |HdrBytes(h)|
  {
    if h.idx != 0 {
      size := PrefixInt.IntSize(h.idx, 0xF);
    } else {
      size := 1;
      var n := PrefixInt.IntSize(|h.name|, 0x7F);
      size := size + n + |h.name|;
    }
    var v := PrefixInt.IntSize(|h.value|, 0x7F);
    size := size + v + |h.value|;
  }

  method FieldSize(f: Field) returns (size: nat)
    requires f.Ok() && f.hdrs != []
    ensures size == |FieldCells(f)|
  {
    size := HEAD_LEN;
    if !f.dup {
      var n := HdrSize(f.hdrs[0]);
      OneCell(f.hdrs);
      size := size + n;
    } else {
      assert f.hdrs[..0] == [];
      for d := 0 to |f.hdrs|
        invariant size == HEAD_LEN + |AllCells(f.hdrs[..d])|
      {
        assert f.hdrs[..d + 1][..d] == f.hdrs[..d];
        var n := HdrSize(f.hdrs[d]);
        size := size + HEAD_LEN + n;
      }
      assert f.hdrs[..|f.hdrs|] == f.hdrs;
    }
  }

  lemma OneCell(hs: seq<Hdr>)
    requires |hs| == 1
    ensures AllCells(hs) == HdrCells(hs[0])
  {
    assert hs[..0] == [];
    assert AllCells(hs[..0]) == [];
    assert [] + HdrCells(hs[0]) == HdrCells(hs[0]);
  }

  /** The headers the cache adds: Server and Via, by their static index. */
  function AddedBytes(idx: nat, value: Bytes): Bytes {
    Int(idx, 0xF) + Int(|value|, 0x7F) + value
  }

  function AddedCells(idx: nat, value: Bytes): seq<Cell> {
    HeadCells(false, |AddedBytes(idx, value)|) + Cells(AddedBytes(idx, value))
  }

  function StatusBytes(r: Resp): Bytes
    requires r.Ok()
  {
    if r.statusIdx != 0 then [r.statusIdx + 0x80] else Int(IDX_STATUS, 0xF) + Int(3, 0x7F) + r.statusText
  }

  /** The record behind the entry itself. */
  function Record(r: Resp, server: Bytes, via: Bytes): seq<Cell>
    requires r.Ok()
  {
    Cells(Lower(r.key) + StatusBytes(r) + r.reason) + TableCells(Kept(r.table, |r.table|))
    + AddedCells(IDX_SERVER, server) + AddedCells(IDX_VIA, via) + Cells(r.body)
  }

  lemma SmallInts()
    ensures |Int(IDX_SERVER, 0xF)| == |Int(IDX_VIA, 0xF)| == 2
    ensures |Int(IDX_STATUS, 0xF)| == |Int(3, 0x7F)| == |Int(0, 0xF)| == 1
  {}

  lemma {:induction false} KeptNext(table: seq<Field>, n: nat)
    requires n < |table|
    ensures TableCells(Kept(table, n + 1)) ==
      TableCells(Kept(table, n)) + if Stored(table, n) then FieldCells(table[n]) else []
  {
    var fs := Kept(table, n);
    if Stored(table, n) {
      assert (fs + [table[n]])[..|fs|] == fs;
    } else {
      assert fs + [] == fs;
    }
  }

  /** The size of the record (fw/cache.c:1620-1707), without the reason phrase, or an error for a header
      that is too long; fixed is the part of the entry that counts. */
  method EntrySize(r: Resp, server: Bytes, via: Bytes, fixed: nat) returns (size: int)
    requires r.Ok()
    ensures size < 0 <==> exists i :: 0 <= i < |r.table| && Stored(r.table, i) && |FieldCells(r.table[i])| >= MAX_LEN
    ensures size >= 0 ==> size + |r.reason| == fixed + |Record(r, server, via)|
  {
    hide FieldCells;
    hide HeadCells;
    size := fixed + |r.key| + 1;
    if r.statusIdx == 0 {
      size := size + 1 + 3;
    }
    SmallInts();
    var fields := 0;
    for i := 0 to |r.table|
      invariant fields == |TableCells(Kept(r.table, i))|
      invariant forall j :: 0 <= j < i && Stored(r.table, j) ==> |FieldCells(r.table[j])| < MAX_LEN
    {
      KeptNext(r.table, i);
      if !Stored(r.table, i) {
        continue;
      }
      var n := FieldSize(r.table[i]);
      if n >= MAX_LEN {
        return -1;
      }
      fields := fields + n;
    }
    size := size + fields;
    var s := PrefixInt.IntSize(|server|, 0x7F);
    var v := PrefixInt.IntSize(|via|, 0x7F);
    size := size + HEAD_LEN + 2 + s + |server|;
    size := size + HEAD_LEN + 2 + v + |via|;
    size := size + |r.body|;
  }

  // ----- writing

  /** The outcome of storing and serving: a string that is too long, a BUG_ON, a size that is not spent
      exactly, a header that cannot be decoded. */
  datatype Outcome = Fine | TooBig | Bug | Misfit | Dropped

  /** The integers written for a header stay in their buffers of three bytes: its lengths are below
      0x7F + 2^14. */
  predicate Short(h: Hdr) {
    && (if h.idx != 0 then h.idx < 0xF + 0x4000 else |h.name| < 0x7F + 0x4000)
    && |h.value| < 0x7F + 0x4000
  }

  /** The cache can add a header. */
  predicate Addable(idx: nat, value: Bytes) {
    idx != 0 && value != [] && |AddedBytes(idx, value)| < MAX_LEN
  }

  predicate AllShort(hs: seq<Hdr>) {
    hs == [] || (AllShort(hs[..|hs| - 1]) && Short(hs[|hs| - 1]))
  }

  predicate TableShort(fs: seq<Field>) {
    fs == [] || (TableShort(fs[..|fs| - 1]) && AllShort(fs[|fs| - 1].hdrs))
  }

  class CacheEntry {
    /** All integers have stayed in their buffers. */
    var inside: bool
    /** The record; its end is the place where the program writes next. */
    var data: seq<Cell>
    /** What is left of the size. */
    var totLen: int
    var keyLen: nat
    var statusLen: nat
    var rphLen: nat
    var hdrLen: nat
    var bodyLen: nat
    var hdrNum: nat
    var hdrH2Off: nat
    var status: nat
    var hdrs: nat
    var body: nat

    constructor (totLen0: int)
      ensures data == [] && totLen == totLen0 && keyLen == statusLen == rphLen == hdrLen == bodyLen == 0 && inside
    {
      inside := true;
      data, totLen, keyLen, statusLen, rphLen, hdrLen, bodyLen := [], totLen0, 0, 0, 0, 0, 0;
      hdrNum, hdrH2Off, status, hdrs, body := 0, 0, 0, 0, 0;
    }

    /** fw/cache.c:1070-1111 */
    method Put(bytes: Bytes)
      modifies this`data, this`totLen
      ensures data == old(data) + Cells(bytes) && totLen == old(totLen) - |bytes|
    {
      data := data + Cells(bytes);
      totLen := totLen - |bytes|;
    }

    /** Bytes of the headers. */
    method PutHdr(bytes: Bytes)
      modifies this`data, this`totLen, this`hdrLen
      ensures data == old(data) + Cells(bytes) && totLen == old(totLen) - |bytes| && hdrLen == old(hdrLen) + |bytes|
    {
      Put(bytes);
      hdrLen := hdrLen + |bytes|;
    }

    /** Room for the head of a string (fw/cache.c:1050-1056). */
    method MoveHdr() returns (at: nat)
      modifies this`data, this`totLen, this`hdrLen
      ensures at == |old(data)| && data == old(data) + HeadCells(false, 0)
      ensures totLen == old(totLen) - HEAD_LEN && hdrLen == old(hdrLen) + HEAD_LEN
    {
      at := |data|;
      data := data + HeadCells(false, 0);
      totLen := totLen - HEAD_LEN;
      hdrLen := hdrLen + HEAD_LEN;
    }

    /** An integer, through a buffer of three bytes (fw/cache.c:1113-1131). */
    method PutInt(v: nat, max: nat)
      requires max < 256
      modifies this`data, this`totLen, this`hdrLen, this`inside
      ensures data == old(data) + Cells(Int(v, max))
      ensures totLen == old(totLen) - |Int(v, max)| && hdrLen == old(hdrLen) + |Int(v, max)|
      ensures inside == (old(inside) && v < max + 0x4000)
    {
      hide Cells;
      PrefixInt.FitsIff(v, max, 0);
      var buf := PrefixInt.WriteInt(v, max, 0);
      inside := inside && |buf| <= INT_BUF;
      PutHdr(buf);
    }

    method PutName(h: Hdr)
      modifies this`data, this`totLen, this`hdrLen, this`inside
      ensures data == old(data) + Cells(NameBytes(h))
      ensures totLen == old(totLen) - |NameBytes(h)| && hdrLen == old(hdrLen) + |NameBytes(h)|
      ensures inside == (old(inside) && if h.idx != 0 then h.idx < 0xF + 0x4000 else |h.name| < 0x7F + 0x4000)
    {
      hide Int;
      hide Lower;
      hide Cells;
      if h.idx != 0 {
        PutInt(h.idx, 0xF);
      } else {
        PutInt(0, 0xF);
        PutInt(|h.name|, 0x7F);
        PutHdr(Lower(h.name));
        CellsThree(old(data), Int(0, 0xF), Int(|h.name|, 0x7F), Lower(h.name));
      }
    }

    /** One header, and the head before it, which is filled in at the end (fw/cache.c:1187-1211). */
    method CopyOne(h: Hdr)
      modifies this`data, this`totLen, this`hdrLen, this`inside
      ensures inside == (old(inside) && Short(h))
      ensures data == old(data) + HdrCells(h)
      ensures totLen == old(totLen) - |HdrCells(h)| && hdrLen == old(hdrLen) + |HdrCells(h)|
    {
      hide Int;
      hide Cells;
      hide NameBytes;
      hide HeadCells;
      var at := MoveHdr();
      var prev := hdrLen;
      PutName(h);
      PutInt(|h.value|, 0x7F);
      PutHdr(h.value);
      CellsThree(old(data) + HeadCells(false, 0), NameBytes(h), Int(|h.value|, 0x7F), h.value);
      FillHead(old(data), Cells(HdrBytes(h)), false, hdrLen - prev);
      data := data[at := Head(false, hdrLen - prev)];
    }

    /** A field of the table (fw/cache.c:1138-1218). */
    method CopyHdr(f: Field)
      requires f.Ok() && f.hdrs != []
      modifies this`data, this`totLen, this`hdrLen, this`inside
      ensures inside == (old(inside) && AllShort(f.hdrs))
      ensures data == old(data) + FieldCells(f)
      ensures totLen == old(totLen) - |FieldCells(f)| && hdrLen == old(hdrLen) + |FieldCells(f)|
    {
      hide HdrCells;
      hide Short;
      ghost var start := old(data) + if f.dup then HeadCells(true, |f.hdrs|) else [];
      if f.dup {
        var at := MoveHdr();
        data := data[at := Head(true, |f.hdrs|)];
        assert data == start;
      } else {
        assert data == start;
      }
      assert f.hdrs[..0] == [] && start + [] == start;
      ghost var len0 := |start|;
      for d := 0 to |f.hdrs|
        invariant data == start + AllCells(f.hdrs[..d]) && inside == (old(inside) && AllShort(f.hdrs[..d]))
        invariant totLen == old(totLen) - (|data| - |old(data)|) && hdrLen == old(hdrLen) + (|data| - |old(data)|)
      {
        assert f.hdrs[..d + 1][..d] == f.hdrs[..d];
        ghost var before := AllCells(f.hdrs[..d]);
        CopyOne(f.hdrs[d]);
        assert data == start + (before + HdrCells(f.hdrs[d]));
      }
      assert f.hdrs[..|f.hdrs|] == f.hdrs;
      assert data == old(data) + FieldCells(f);
    }

    /** A header that the cache adds (fw/cache.c:1220-1265). An empty value is a BUG_ON. */
    method AddHdr(idx: nat, value: Bytes) returns (r: Outcome)
      modifies this`data, this`totLen, this`hdrLen, this`inside
      ensures r == if idx == 0 || value == [] then Bug else if |AddedBytes(idx, value)| >= MAX_LEN then TooBig else Fine
      ensures r == Fine ==> inside == (old(inside) && idx < 0xF + 0x4000 && |value| < 0x7F + 0x4000)
      ensures r == Fine ==> data == old(data) + AddedCells(idx, value)
      ensures r == Fine ==> totLen == old(totLen) - |AddedCells(idx, value)|
      ensures r == Fine ==> hdrLen == old(hdrLen) + |AddedCells(idx, value)|
    {
      if idx == 0 || value == [] {
        return Bug;
      }
      var a := PrefixInt.IntSize(idx, 0xF);
      var b := PrefixInt.IntSize(|value|, 0x7F);
      if a + b + |value| >= MAX_LEN {
        return TooBig;
      }
      AddFitting(idx, value);
      r := Fine;
    }

    method AddFitting(idx: nat, value: Bytes)
      modifies this`data, this`totLen, this`hdrLen, this`inside
      ensures inside == (old(inside) && idx < 0xF + 0x4000 && |value| < 0x7F + 0x4000)
      ensures data == old(data) + AddedCells(idx, value)
      ensures totLen == old(totLen) - |AddedCells(idx, value)| && hdrLen == old(hdrLen) + |AddedCells(idx, value)|
    {
      hide Int;
      hide Cells;
      hide HeadCells;
      var prev := hdrLen;
      var at := MoveHdr();
      PutInt(idx, 0xF);
      PutInt(|value|, 0x7F);
      PutHdr(value);
      CellsThree(old(data) + HeadCells(false, 0), Int(idx, 0xF), Int(|value|, 0x7F), value);
      FillHead(old(data), Cells(AddedBytes(idx, value)), false, hdrLen - prev - HEAD_LEN);
      data := data[at := Head(false, hdrLen - prev - HEAD_LEN)];
    }

    /** The headers of the table (fw/cache.c:1516-1545). */
    method CopyTable(table: seq<Field>)
      requires forall i :: 0 <= i < |table| ==> table[i].Ok()
      modifies this`data, this`totLen, this`hdrLen, this`hdrNum, this`inside
      ensures inside == (old(inside) && TableShort(Kept(table, |table|)))
      ensures var c := TableCells(Kept(table, |table|));
              data == old(data) + c && totLen == old(totLen) - |c| && hdrLen == old(hdrLen) + |c|
      ensures hdrNum == REGULAR + |Kept(table, |table|)|
    {
      hide FieldCells;
      hide AllShort;
      hdrNum := REGULAR + |table|;
      assert old(data) + [] == old(data);
      for i := 0 to |table|
        invariant data == old(data) + TableCells(Kept(table, i))
        invariant inside == (old(inside) && TableShort(Kept(table, i)))
        invariant totLen == old(totLen) - |TableCells(Kept(table, i))|
        invariant hdrLen == old(hdrLen) + |TableCells(Kept(table, i))|
        invariant hdrNum == REGULAR + |Kept(table, i)| + (|table| - i)
      {
        ghost var before := TableCells(Kept(table, i));
        KeptNext(table, i);
        if !Stored(table, i) {
          hdrNum := hdrNum - 1;
          assert before + [] == before && Kept(table, i + 1) == Kept(table, i);
          continue;
        }
        CopyHdr(table[i]);
        assert Kept(table, i + 1)[..|Kept(table, i)|] == Kept(table, i);
        assert data == old(data) + (before + FieldCells(table[i]));
      }
    }

    /** The key, the status and the reason phrase (fw/cache.c:1449-1514). */
    method CopyStart(r: Resp)
      requires r.Ok() && data == []
      modifies this`data, this`totLen, this`keyLen, this`status, this`statusLen, this`rphLen
      ensures data == Cells(Lower(r.key) + StatusBytes(r) + r.reason) && totLen == old(totLen) - |data|
      ensures status == keyLen == |r.key| && statusLen == |StatusBytes(r)| && rphLen == |r.reason|
    {
      hide Cells;
      hide StatusBytes;
      Put(Lower(r.key));
      keyLen := |r.key|;
      status := |data|;
      Put(StatusBytes(r));
      statusLen := |StatusBytes(r)|;
      Put(r.reason);
      rphLen := |r.reason|;
      CellsThree([], Lower(r.key), StatusBytes(r), r.reason);
      assert [] + Cells(Lower(r.key) + StatusBytes(r) + r.reason) == Cells(Lower(r.key) + StatusBytes(r) + r.reason);
    }

    /** The whole record (fw/cache.c:1424-1573): refused when an added header is, and accepted when the
        size has been spent exactly. */
    method CopyResp(r: Resp, server: Bytes, via: Bytes) returns (o: Outcome)
      requires r.Ok() && data == [] && inside
      modifies this
      ensures o in {Fine, Misfit} <==> Addable(IDX_SERVER, server) && Addable(IDX_VIA, via)
      ensures o != Dropped && (o == Bug ==> server == [] || via == [])
      ensures o in {Fine, Misfit} ==> data == Record(r, server, via) && (o == Fine <==> old(totLen) == |data|)
      ensures o in {Fine, Misfit} ==>
        && (inside <==> TableShort(Kept(r.table, |r.table|)) && |server| < 0x7F + 0x4000 && |via| < 0x7F + 0x4000)
        && status == keyLen == |r.key| && statusLen == |StatusBytes(r)| && rphLen == |r.reason|
        && hdrs == status + statusLen + rphLen && body == hdrs + hdrLen
        && bodyLen == |r.body| && body + bodyLen == |data|
        && (var n := |Kept(r.table, |r.table|)|; hdrH2Off == REGULAR + n + 1 && hdrNum == REGULAR + n + 2)
    {
      hide TableCells;
      hide TableShort;
      hide AddedCells;
      hide AddedBytes;
      hide Kept;
      hide Cells;
      hide StatusBytes;
      hide Lower;
      CopyStart(r);
      hdrs := |data|;
      hdrLen := 0;
      CopyTable(r.table);
      o := AddHdr(IDX_SERVER, server);
      if o != Fine {
        return;
      }
      o := AddHdr(IDX_VIA, via);
      if o != Fine {
        return;
      }
      hdrH2Off := hdrNum + 1;
      hdrNum := hdrNum + 2;
      body := |data|;
      Put(r.body);
      bodyLen := |r.body|;
      o := if totLen == 0 then Fine else Misfit;
    }
  }

  // ----- reading

  /** The bytes of a string of the record. */
  method ReadBytes(data: seq<Cell>, p: nat, len: nat, ghost s: Bytes) returns (b: Bytes)
    requires p + len <= |data| && len == |s| && data[p..p + len] == Cells(s)
    ensures b == s
  {
    b := [];
    for i := 0 to len
      invariant b == s[..i]
    {
      assert data[p + i] == data[p..p + len][i] == Byte(s[i]);
      b := b + [data[p + i].b];
    }
  }

  // ----- the decoding for HTTP/1.1 (fw/hpack.c:1636-2036), of one fragment and without modifications

  /** An integer at the start of the bytes, behind the bits above its prefix. */
  function Taken(b: Bytes, max: nat): PrefixInt.Read
    requires b != []
  {
    var v := b[0] % (max + 1);
    if v != max then PrefixInt.Done(v, b[1..]) else PrefixInt.Flex(max, 0, b[1..])
  }

  method TakeInt(b: Bytes, max: nat) returns (r: PrefixInt.Read)
    requires b != []
    ensures r == Taken(b, max)
  {
    var v := b[0] % (max + 1);
    if v != max {
      return PrefixInt.Done(v, b[1..]);
    }
    r := PrefixInt.GetFlexible(max, b[1..]);
  }

  lemma IntTaken(v: nat, max: nat, tail: Bytes)
    requires v <= PrefixInt.LIMIT && (max == 0xF || max == 0x7F)
    ensures var b := Int(v, max) + tail; b != [] && b[0] <= max && Taken(b, max) == PrefixInt.Done(v, tail)
  {
    hide PrefixInt.Flex;
    hide PrefixInt.Groups;
    PrefixInt.RoundTrip(v, max, 0, tail);
    var b := Int(v, max) + tail;
    assert max % (max + 1) == max && (v < max ==> v % (max + 1) == v);
    if v < max {
      assert b[1..] == tail;
    } else {
      assert b[1..] == Int(v, max)[1..] + tail;
    }
  }

  /** What can be decoded: a static index, or a name. */
  predicate Decodable(h: Hdr, n: nat) {
    if h.idx != 0 then h.idx <= n else h.name != []
  }

  predicate AllDecodable(hs: seq<Hdr>, n: nat) {
    hs == [] || (AllDecodable(hs[..|hs| - 1], n) && Decodable(hs[|hs| - 1], n))
  }

  predicate TableDecodable(fs: seq<Field>, n: nat) {
    fs == [] || (TableDecodable(fs[..|fs| - 1], n) && AllDecodable(fs[|fs| - 1].hdrs, n))
  }

  const DLM: Bytes := [58, 32]
  const CRLF: Bytes := [13, 10]

  function NameOf(h: Hdr, names: seq<Bytes>): Bytes {
    if h.idx == 0 then Lower(h.name) else if h.idx <= |names| then names[h.idx - 1] else []
  }

  /** The header line; the end of the line is missing where there is no value. */
  function Line(h: Hdr, names: seq<Bytes>): Bytes {
    NameOf(h, names) + DLM + h.value + if h.value == [] then [] else CRLF
  }

  /** The value and the end of the line (fw/hpack.c:1868-1970). */
  method ExpandValue(b: Bytes, ghost value: Bytes) returns (ok: bool, out: Bytes)
    ensures b == Int(|value|, 0x7F) + value && |value| <= PrefixInt.LIMIT ==>
              ok && out == value + if value == [] then [] else CRLF
  {
    hide Taken;
    hide Int;
    if |value| <= PrefixInt.LIMIT {
      IntTaken(|value|, 0x7F, value);
    }
    if b == [] {
      return true, [];
    }
    var r := TakeInt(b, 0x7F);
    match r
    case Drop => return false, [];
    case More(_, _) => return true, [];
    case Done(len, rest) =>
      if rest == [] {
        return true, [];
      }
      var m := if |rest| < len then |rest| else len;
      ok, out := true, rest[..m];
      if m < len {
        return;
      }
      out := out + CRLF;
  }

  /** A name that is spelt out (fw/hpack.c:1745-1774, 1801-1816): the name and what is behind it. */
  method ExpandName(b: Bytes, ghost name: Bytes, ghost tail: Bytes)
    returns (ok: bool, whole: bool, out: Bytes, rest: Bytes)
    requires b != []
    ensures b == Int(|name|, 0x7F) + name + tail && |name| <= PrefixInt.LIMIT ==>
              (ok <==> name != []) && (ok ==> whole && out == name && rest == tail)
  {
    hide Taken;
    hide Int;
    if |name| <= PrefixInt.LIMIT {
      IntTaken(|name|, 0x7F, name + tail);
      assert Int(|name|, 0x7F) + (name + tail) == Int(|name|, 0x7F) + name + tail;
    }
    ok, whole, out, rest := true, false, [], [];
    var r := TakeInt(b, 0x7F);
    match r
    case Drop => return false, false, [], [];
    case More(_, _) => return;
    case Done(len, behind) =>
      if len == 0 {
        return false, false, [], [];
      }
      if behind == [] {
        return;
      }
      var m := if |behind| < len then |behind| else len;
      out, rest := behind[..m], behind[m..];
      whole := m == len;
  }

  lemma LineEndsIff(h: Hdr, names: seq<Bytes>)
    ensures Line(h, names) == NameOf(h, names) + DLM + h.value + CRLF <==> h.value != []
  {
    assert |NameOf(h, names) + DLM + h.value + CRLF| == |NameOf(h, names) + DLM + h.value| + 2;
  }

  /** A stored header as a line of text, which has an end if and only if there is a value. */
  method Expand(b: Bytes, names: seq<Bytes>, ghost h: Hdr) returns (ok: bool, out: Bytes)
    requires b != []
    ensures b == HdrBytes(h) && Short(h) ==> (ok <==> Decodable(h, |names|)) && (ok ==> out == Line(h, names))
    ensures b == HdrBytes(h) && Short(h) && ok ==>
              (out == NameOf(h, names) + DLM + h.value + CRLF <==> h.value != [])
  {
    hide Taken;
    hide Int;
    hide Lower;
    LineEndsIff(h, names);
    ghost var behind := if h.idx != 0 then [] else Int(|h.name|, 0x7F) + Lower(h.name);
    ghost var value := Int(|h.value|, 0x7F) + h.value;
    if Short(h) {
      HdrParts(h, behind, value);
      IntTaken(h.idx, 0xF, behind + value);
      IntTaken(|h.value|, 0x7F, h.value);
    }
    if b[0] >= 0x10 {
      return false, [];
    }
    var r := TakeInt(b, 0xF);
    if r.Drop? {
      return false, [];
    }
    if r.More? || r.rest == [] {
      return true, [];
    }
    var rest;
    if r.x != 0 {
      if r.x > |names| {
        return false, [];
      }
      out, rest := names[r.x - 1], r.rest;
    } else {
      var whole;
      ok, whole, out, rest := ExpandName(r.rest, Lower(h.name), value);
      if !ok || !whole {
        return ok, [];
      }
    }
    out := out + DLM;
    var v;
    ok, v := ExpandValue(rest, h.value);
    out := out + v;
  }

  lemma HdrParts(h: Hdr, behind: Bytes, value: Bytes)
    requires behind == if h.idx != 0 then [] else Int(|h.name|, 0x7F) + Lower(h.name)
    requires value == Int(|h.value|, 0x7F) + h.value
    ensures HdrBytes(h) == Int(h.idx, 0xF) + (behind + value)
    ensures h.idx != 0 ==> behind + value == value
  {
    hide Int;
    hide Lower;
  }

  // ----- serving

  /** The form in which a header leaves: as it is stored, or as a line. */
  function Shown(h: Hdr, h2: bool, names: seq<Bytes>): Bytes {
    if h2 then HdrBytes(h) else Line(h, names)
  }

  /** The headers of a field. */
  function Wire(hs: seq<Hdr>, h2: bool, names: seq<Bytes>): seq<Bytes> {
    if hs == [] then [] else Wire(hs[..|hs| - 1], h2, names) + [Shown(hs[|hs| - 1], h2, names)]
  }

  function WireAll(fs: seq<Field>, h2: bool, names: seq<Bytes>): seq<Bytes> {
    if fs == [] then [] else WireAll(fs[..|fs| - 1], h2, names) + Wire(fs[|fs| - 1].hdrs, h2, names)
  }

  /** A string with its head. */
  method ReadString(data: seq<Cell>, p: nat, ghost s: Bytes) returns (q: nat, b: Bytes)
    requires var c := HeadCells(false, |s|) + Cells(s); p + |c| <= |data| && data[p..p + |c|] == c
    ensures q == p + HEAD_LEN + |s| && b == s
  {
    ghost var c := HeadCells(false, |s|) + Cells(s);
    assert data[p] == data[p..p + |c|][0];
    var len := data[p].len;
    assert !data[p].dup;
    q := p + HEAD_LEN;
    assert data[q..q + len] == data[p..p + |c|][HEAD_LEN..];
    b := ReadBytes(data, q, len, s);
    q := q + len;
  }

  lemma {:induction false} AllCellsSplit(hs: seq<Hdr>, d: nat)
    requires d <= |hs|
    ensures AllCells(hs[..d]) <= AllCells(hs)
  {
    if d < |hs| {
      var l := hs[..|hs| - 1];
      assert l[..d] == hs[..d];
      AllCellsSplit(l, d);
    } else {
      assert hs[..d] == hs;
    }
  }

  lemma AllCellsAt(hs: seq<Hdr>, d: nat)
    requires d < |hs|
    ensures var a := |AllCells(hs[..d])|; var n := |HdrCells(hs[d])|;
            a + n == |AllCells(hs[..d + 1])| <= |AllCells(hs)| && AllCells(hs)[a..a + n] == HdrCells(hs[d])
  {
    hide HdrCells;
    assert hs[..d + 1][..d] == hs[..d];
    AllCellsSplit(hs, d + 1);
    var b := AllCells(hs[..d + 1]);
    var a, n := |AllCells(hs[..d])|, |HdrCells(hs[d])|;
    assert AllCells(hs)[a..a + n] == b[a..a + n];
  }

  lemma {:induction false} TableCellsSplit(fs: seq<Field>, d: nat)
    requires d <= |fs|
    ensures TableCells(fs[..d]) <= TableCells(fs)
  {
    hide FieldCells;
    if d < |fs| {
      var l := fs[..|fs| - 1];
      assert l[..d] == fs[..d];
      TableCellsSplit(l, d);
    } else {
      assert fs[..d] == fs;
    }
  }

  lemma TableCellsAt(fs: seq<Field>, d: nat)
    requires d < |fs|
    ensures var a := |TableCells(fs[..d])|; var n := |FieldCells(fs[d])|;
            a + n == |TableCells(fs[..d + 1])| <= |TableCells(fs)| && TableCells(fs)[a..a + n] == FieldCells(fs[d])
  {
    hide FieldCells;
    assert fs[..d + 1][..d] == fs[..d];
    TableCellsSplit(fs, d + 1);
    var b := TableCells(fs[..d + 1]);
    var a, n := |TableCells(fs[..d])|, |FieldCells(fs[d])|;
    assert TableCells(fs)[a..a + n] == b[a..a + n];
  }

  /** A part of a part. */
  lemma Within(data: seq<Cell>, p: nat, c: seq<Cell>, a: nat, n: nat)
    requires p + |c| <= |data| && data[p..p + |c|] == c && a + n <= |c|
    ensures data[p + a..p + a + n] == c[a..a + n]
  {
    var x, y := data[p + a..p + a + n], c[a..a + n];
    forall i | 0 <= i < n ensures x[i] == y[i] {
      assert c[a + i] == data[p..p + |c|][a + i] == data[p + a + i];
    }
  }

  /** A stored header is read and written (fw/cache.c:546-624). */
  method WriteOne(data: seq<Cell>, p: nat, h2: bool, names: seq<Bytes>, skip: bool, ghost h: Hdr)
      returns (ok: bool, q: nat, out: seq<Bytes>)
    requires p + |HdrCells(h)| <= |data| && data[p..p + |HdrCells(h)|] == HdrCells(h)
    ensures q == p + |HdrCells(h)| && (skip ==> ok && out == [])
    ensures !skip && (h2 || Short(h)) ==> (ok <==> h2 || Decodable(h, |names|)) && (ok ==> out == [Shown(h, h2, names)])
  {
    hide HdrBytes;
    hide Line;
    hide Short;
    HdrCellsIs(h);
    var b;
    q, b := ReadString(data, p, HdrBytes(h));
    ok, out := true, [];
    if skip {
      return;
    }
    if h2 {
      out := [b];
    } else {
      HdrSome(h);
      var line;
      ok, line := Expand(b, names, h);
      out := [line];
    }
  }

  lemma HdrSome(h: Hdr)
    ensures HdrBytes(h) != []
  {}

  /** The duplicates of a header, each with its head. */
  method ReadDups(data: seq<Cell>, p: nat, dn: nat, h2: bool, names: seq<Bytes>, skip: bool, ghost hs: seq<Hdr>)
      returns (ok: bool, q: nat, out: seq<Bytes>)
    requires dn == |hs| && p + |AllCells(hs)| <= |data| && data[p..p + |AllCells(hs)|] == AllCells(hs)
    ensures ok ==> q == p + |AllCells(hs)|
    ensures skip ==> ok && out == []
    ensures !skip && (h2 || AllShort(hs)) ==> (ok <==> h2 || AllDecodable(hs, |names|))
    ensures !skip && (h2 || AllShort(hs)) ==> (ok ==> out == Wire(hs, h2, names))
  {
    hide HdrCells;
    hide Short;
    hide Shown;
    hide Decodable;
    ok, q, out := true, p, [];
    assert hs[..0] == [];
    for d := 0 to dn
      invariant ok && q == p + |AllCells(hs[..d])| && (skip ==> out == [])
      invariant !skip && (h2 || AllShort(hs)) ==> (h2 || AllDecodable(hs[..d], |names|))
      invariant !skip && (h2 || AllShort(hs)) ==> out == Wire(hs[..d], h2, names)
    {
      AllCellsAt(hs, d);
      Within(data, p, AllCells(hs), |AllCells(hs[..d])|, |HdrCells(hs[d])|);
      assert hs[..d + 1][..d] == hs[..d];
      if AllShort(hs) { ShortAt(hs, d); }
      var one;
      ok, q, one := WriteOne(data, q, h2, names, skip, hs[d]);
      if !ok {
        if AllDecodable(hs, |names|) { DecodableAt(hs, |names|, d); }
        return;
      }
      out := out + one;
    }
    assert hs[..|hs|] == hs;
  }

  lemma {:induction false} ShortAt(hs: seq<Hdr>, d: nat)
    requires AllShort(hs) && d < |hs|
    ensures Short(hs[d])
  {
    if d < |hs| - 1 { ShortAt(hs[..|hs| - 1], d); }
  }

  lemma {:induction false} DecodableAt(hs: seq<Hdr>, n: nat, d: nat)
    requires AllDecodable(hs, n) && d < |hs|
    ensures Decodable(hs[d], n)
  {
    if d < |hs| - 1 { DecodableAt(hs[..|hs| - 1], n, d); }
  }

  lemma HdrCellsIs(h: Hdr)
    ensures HdrCells(h) == HeadCells(false, |HdrBytes(h)|) + Cells(HdrBytes(h))
    ensures |HdrCells(h)| == HEAD_LEN + |HdrBytes(h)|
  {
    hide HdrBytes;
    hide HeadCells;
    hide Cells;
  }

  /** A header, or the duplicates of one (fw/cache.c:690-730); the BUG_ON on their flags is in
      ReadString. */
  method ReadField(data: seq<Cell>, p: nat, h2: bool, names: seq<Bytes>, skip: bool, ghost f: Field)
      returns (ok: bool, q: nat, out: seq<Bytes>)
    requires f.Ok() && f.hdrs != [] && p + |FieldCells(f)| <= |data| && data[p..p + |FieldCells(f)|] == FieldCells(f)
    ensures ok ==> q == p + |FieldCells(f)|
    ensures skip ==> ok && out == []
    ensures !skip && (h2 || AllShort(f.hdrs)) ==>
              (ok <==> h2 || AllDecodable(f.hdrs, |names|)) && (ok ==> out == Wire(f.hdrs, h2, names))
  {
    hide HdrBytes;
    hide HdrCells;
    hide HeadCells;
    hide Cells;
    hide AllCells;
    hide Wire;
    hide Shown;
    hide Short;
    hide AllShort;
    hide Decodable;
    hide AllDecodable;
    ghost var c := FieldCells(f);
    if !f.dup {
      OneCell(f.hdrs);
      OneWire(f.hdrs, h2, names);
      HdrCellsIs(f.hdrs[0]);
    }
    assert data[p] == data[p..p + |c|][0];
    if !data[p].dup {
      ok, q, out := WriteOne(data, p, h2, names, skip, f.hdrs[0]);
    } else {
      ghost var all := AllCells(f.hdrs);
      Within(data, p, c, HEAD_LEN, |all|);
      assert c[HEAD_LEN..HEAD_LEN + |all|] == all;
      ok, q, out := ReadDups(data, p + HEAD_LEN, data[p].len, h2, names, skip, f.hdrs);
    }
  }

  lemma OneWire(hs: seq<Hdr>, h2: bool, names: seq<Bytes>)
    requires |hs| == 1
    ensures Wire(hs, h2, names) == [Shown(hs[0], h2, names)]
    ensures AllShort(hs) <==> Short(hs[0])
    ensures AllDecodable(hs, |names|) <==> Decodable(hs[0], |names|)
  {
    hide Shown;
    hide Short;
    hide Decodable;
    assert hs[..0] == [];
    assert Wire(hs[..0], h2, names) == [];
  }

  /** An added header is like one of the response. */
  function Added(idx: nat, value: Bytes): Field {
    Field(false, false, [Hdr(idx, [], value)])
  }

  lemma AddedIsField(idx: nat, value: Bytes)
    requires idx != 0
    ensures AddedCells(idx, value) == FieldCells(Added(idx, value))
  {
    hide Int;
    OneCell(Added(idx, value).hdrs);
    assert HdrBytes(Hdr(idx, [], value)) == AddedBytes(idx, value);
  }

  /** All headers of the record. */
  function Stock(r: Resp, server: Bytes, via: Bytes): seq<Field> {
    Kept(r.table, |r.table|) + [Added(IDX_SERVER, server), Added(IDX_VIA, via)]
  }

  ghost predicate Whole(fs: seq<Field>) {
    forall i :: 0 <= i < |fs| ==> fs[i].Ok() && fs[i].hdrs != []
  }

  lemma {:induction false} KeptWhole(table: seq<Field>, n: nat)
    requires n <= |table| && forall i :: 0 <= i < |table| ==> table[i].Ok()
    ensures Whole(Kept(table, n))
  {
    if n > 0 {
      KeptWhole(table, n - 1);
      if Stored(table, n - 1) {
        assert table[n - 1].hdrs != [];
      } else {
        assert Kept(table, n) == Kept(table, n - 1);
      }
    }
  }

  lemma StockCells(r: Resp, server: Bytes, via: Bytes)
    requires r.Ok()
    ensures TableCells(Stock(r, server, via))
         == TableCells(Kept(r.table, |r.table|)) + AddedCells(IDX_SERVER, server) + AddedCells(IDX_VIA, via)
    ensures Whole(Stock(r, server, via))
  {
    hide FieldCells;
    var k, a, b := Kept(r.table, |r.table|), Added(IDX_SERVER, server), Added(IDX_VIA, via);
    AddedIsField(IDX_SERVER, server);
    AddedIsField(IDX_VIA, via);
    KeptWhole(r.table, |r.table|);
    var s := k + [a, b];
    assert s[..|s| - 1] == k + [a] && (k + [a])[..|k|] == k;
    hide Kept;
  }

  /** The status and the reason phrase (fw/cache.c:2083-2095, 626-685): the one goes to HTTP/2, the other
      to HTTP/1.1, whose status is not taken from the record. */
  method SetStatus(ce: CacheEntry, h2: bool, ghost status: Bytes, ghost reason: Bytes) returns (p: nat, out: Bytes)
    requires ce.statusLen == |status| && ce.rphLen == |reason| && ce.status + |status| + |reason| <= |ce.data|
    requires ce.data[ce.status..ce.status + |status| + |reason|] == Cells(status + reason)
    ensures p == ce.status + |status| + |reason| && out == if h2 then status else reason
  {
    p := ce.status;
    ghost var c := Cells(status + reason);
    Within(ce.data, p, c, 0, |status|);
    Within(ce.data, p, c, |status|, |reason|);
    assert c[0..|status|] == Cells(status) && c[|status|..|status| + |reason|] == Cells(reason);
    var a := ReadBytes(ce.data, p, ce.statusLen, status);
    p := p + ce.statusLen;
    var b := ReadBytes(ce.data, p, ce.rphLen, reason);
    p := p + ce.rphLen;
    out := if h2 then a else b;
  }

  /** The headers of a cached response (fw/cache.c:2097-2103), of which HTTP/1.1 skips the last. The
      reader ends at the body, as the BUG_ON of line 2166 demands. */
  method BuildHdrs(ce: CacheEntry, p0: nat, h2: bool, names: seq<Bytes>, ghost fs: seq<Field>)
      returns (ok: bool, p: nat, out: seq<Bytes>)
    requires Whole(fs) && |fs| >= 2 && ce.hdrNum == REGULAR + |fs| && ce.hdrH2Off == ce.hdrNum - 1
    requires p0 == ce.hdrs && ce.hdrs + |TableCells(fs)| == ce.body <= |ce.data|
    requires ce.data[ce.hdrs..ce.body] == TableCells(fs)
    ensures ok ==> p == ce.body
    ensures h2 || TableShort(fs) ==>
              var shown := if h2 then fs else fs[..|fs| - 1];
              (ok <==> h2 || TableDecodable(shown, |names|)) && (ok ==> out == WireAll(shown, h2, names))
  {
    hide FieldCells;
    hide TableCells;
    hide TableShort;
    hide TableDecodable;
    hide Wire;
    hide WireAll;
    hide AllShort;
    hide AllDecodable;
    hide Serving;
    ok, p, out := true, p0, [];
    ServingNone(fs, h2, names);
    for h := REGULAR to ce.hdrNum
      invariant ok && p == ce.hdrs + |TableCells(fs[..h - REGULAR])|
      invariant h2 || TableShort(fs) ==>
        Serving(fs, if h2 || h < ce.hdrNum then h - REGULAR else |fs| - 1, h2, names, out)
    {
      ghost var d := h - REGULAR;
      var skip := !h2 && h >= ce.hdrH2Off;
      TableCellsAt(fs, d);
      Within(ce.data, ce.hdrs, TableCells(fs), |TableCells(fs[..d])|, |FieldCells(fs[d])|);
      if TableShort(fs) { TableShortAt(fs, d); }
      var hs;
      ok, p, hs := ReadField(ce.data, p, h2, names, skip, fs[d]);
      if !ok {
        if TableDecodable(fs[..|fs| - 1], |names|) { TableDecodableAt(fs[..|fs| - 1], |names|, d); }
        return;
      }
      if skip {
        assert out + hs == out;
      } else if h2 || TableShort(fs) {
        ServingNext(fs, d, h2, names, out, hs);
      }
      out := out + hs;
    }
    assert fs[..|fs|] == fs;
    if h2 || TableShort(fs) {
      ServingIs(fs, if h2 then |fs| else |fs| - 1, h2, names, out);
    }
  }

  /** The first d fields have been served. */
  ghost predicate Serving(fs: seq<Field>, d: nat, h2: bool, names: seq<Bytes>, out: seq<Bytes>) {
    d <= |fs| && (h2 || TableDecodable(fs[..d], |names|)) && out == WireAll(fs[..d], h2, names)
  }

  lemma ServingNone(fs: seq<Field>, h2: bool, names: seq<Bytes>)
    ensures Serving(fs, 0, h2, names, []) && TableCells(fs[..0]) == []
  {
    assert fs[..0] == [];
  }

  lemma ServingNext(fs: seq<Field>, d: nat, h2: bool, names: seq<Bytes>, out: seq<Bytes>, hs: seq<Bytes>)
    requires Serving(fs, d, h2, names, out) && d < |fs|
    requires (h2 || AllDecodable(fs[d].hdrs, |names|)) && hs == Wire(fs[d].hdrs, h2, names)
    ensures Serving(fs, d + 1, h2, names, out + hs)
  {
    hide Wire;
    hide AllDecodable;
    assert fs[..d + 1][..d] == fs[..d];
  }

  lemma ServingIs(fs: seq<Field>, d: nat, h2: bool, names: seq<Bytes>, out: seq<Bytes>)
    requires Serving(fs, d, h2, names, out)
    ensures d <= |fs| && (h2 || TableDecodable(fs[..d], |names|)) && out == WireAll(fs[..d], h2, names)
  {}

  lemma {:induction false} TableShortAt(fs: seq<Field>, d: nat)
    requires TableShort(fs) && d < |fs|
    ensures AllShort(fs[d].hdrs)
  {
    if d < |fs| - 1 { TableShortAt(fs[..|fs| - 1], d); }
  }

  lemma {:induction false} TableDecodableAt(fs: seq<Field>, n: nat, d: nat)
    requires TableDecodable(fs, n) && d < |fs|
    ensures AllDecodable(fs[d].hdrs, n)
  {
    if d < |fs| - 1 { TableDecodableAt(fs[..|fs| - 1], n, d); }
  }

  /** Storing a response and serving it: the size computed beforehand is spent exactly, no integer leaves
      its buffer if and only if all lengths are short, and then the reader gets the status or the reason
      phrase, the headers that were stored and the body. */
  method StoreAndServe(r: Resp, server: Bytes, via: Bytes, fixed: nat, h2: bool, names: seq<Bytes>)
      returns (o: Outcome, inside: bool, out: seq<Bytes>)
    requires r.Ok()
    ensures o in {Fine, Dropped} <==>
      && (forall i :: 0 <= i < |r.table| && Stored(r.table, i) ==> |FieldCells(r.table[i])| < MAX_LEN)
      && Addable(IDX_SERVER, server) && Addable(IDX_VIA, via)
    ensures o != Misfit && (o == Bug ==> server == [] || via == [])
    ensures o in {Fine, Dropped} ==> (inside <==> TableShort(Stock(r, server, via)))
    ensures o in {Fine, Dropped} && (h2 || inside) ==>
      var fs := Stock(r, server, via); var shown := if h2 then fs else fs[..|fs| - 1];
      && (o == Fine <==> h2 || TableDecodable(shown, |names|))
      && (o == Fine ==> out == [if h2 then StatusBytes(r) else r.reason] + WireAll(shown, h2, names) + [r.body])
  {
    hide FieldCells;
    hide Kept;
    hide WireAll;
    hide TableCells;
    hide TableShort;
    hide TableDecodable;
    hide AddedCells;
    hide AddedBytes;
    hide StatusBytes;
    hide Cells;
    out, inside := [], true;
    var size := EntrySize(r, server, via, fixed);
    if size < 0 {
      return TooBig, true, [];
    }
    var ce := new CacheEntry(size + |r.reason| - fixed);
    o := ce.CopyResp(r, server, via);
    if o != Fine {
      return;
    }
    inside := ce.inside;
    ghost var fs := Stock(r, server, via);
    StockCells(r, server, via);
    StockShort(r, server, via);
    RecordParts(r, server, via);
    var p, start := SetStatus(ce, h2, StatusBytes(r), r.reason);
    var ok, hdrs;
    ok, p, hdrs := BuildHdrs(ce, p, h2, names, fs);
    if !ok {
      return Dropped, inside, [];
    }
    var body := ReadBytes(ce.data, p, ce.bodyLen, r.body);
    out := [start] + hdrs + [body];
  }

  lemma StockShort(r: Resp, server: Bytes, via: Bytes)
    ensures TableShort(Stock(r, server, via)) <==>
            TableShort(Kept(r.table, |r.table|)) && |server| < 0x7F + 0x4000 && |via| < 0x7F + 0x4000
  {
    hide Kept;
    var k, a, b := Kept(r.table, |r.table|), Added(IDX_SERVER, server), Added(IDX_VIA, via);
    var s := k + [a, b];
    assert s[..|s| - 1] == k + [a] && (k + [a])[..|k|] == k;
    assert a.hdrs[..0] == [] && b.hdrs[..0] == [];
    assert AllShort(a.hdrs) <==> Short(a.hdrs[0]);
    assert AllShort(b.hdrs) <==> Short(b.hdrs[0]);
  }

  lemma RecordParts(r: Resp, server: Bytes, via: Bytes)
    requires r.Ok()
    ensures var d := Record(r, server, via); var t := TableCells(Stock(r, server, via));
            var b := |r.key| + |StatusBytes(r)|; var a := b + |r.reason|;
            && a + |t| + |r.body| == |d| && d[a..a + |t|] == t && d[a + |t|..] == Cells(r.body)
            && d[|r.key|..a] == Cells(StatusBytes(r) + r.reason)
  {
    hide TableCells;
    hide AddedCells;
    hide StatusBytes;
    hide Kept;
    StockCells(r, server, via);
    var k := Lower(r.key) + StatusBytes(r) + r.reason;
    var x := Cells(k);
    var t := TableCells(Stock(r, server, via));
    var d := Record(r, server, via);
    assert d == x + t + Cells(r.body);
    assert k == Lower(r.key) + (StatusBytes(r) + r.reason);
    assert x[|r.key|..] == Cells(StatusBytes(r) + r.reason);
    assert d[|r.key|..|x|] == x[|r.key|..];
  }

  function Single(h: Hdr): Field {
    Field(false, false, [h])
  }

  lemma ShortFits(h: Hdr)
    requires Short(h)
    ensures |HdrBytes(h)| < MAX_LEN && |FieldCells(Single(h))| < MAX_LEN && AllShort([h])
  {
    PrefixInt.FitsIff(h.idx, 0xF, 0);
    PrefixInt.FitsIff(|h.name|, 0x7F, 0);
    PrefixInt.FitsIff(|h.value|, 0x7F, 0);
    OneCell([h]);
    assert [h][..0] == [];
  }

  /** What is shown of a response with two headers. */
  lemma TwoServed(first: Hdr, second: Hdr, server: Hdr, names: seq<Bytes>)
    ensures var two := [Single(first), Single(second)]; var shown := [Single(first), Single(second), Single(server)];
            && (TableShort(two) <==> Short(first) && Short(second))
            && (TableDecodable(shown, |names|) <==>
                Decodable(first, |names|) && Decodable(second, |names|) && Decodable(server, |names|))
            && WireAll(shown, false, names) == [Line(first, names), Line(second, names), Line(server, names)]
  {
    hide *;
    var f, g, h := Single(first), Single(second), Single(server);
    ServedNone(names);
    ServedNext([], first, names);
    ServedNext([f], second, names);
    ServedNext([f, g], server, names);
    ThreeJoined(f, g, h);
    ThreeJoined(Line(first, names), Line(second, names), Line(server, names));
  }

  lemma ThreeJoined<T>(a: T, b: T, c: T)
    ensures [] + [a] == [a] && [a] + [b] == [a, b] && [a, b] + [c] == [a, b, c]
  {}

  /** What is stored of it. */
  lemma TwoStored(r: Resp, first: Hdr, second: Hdr, server: Bytes, via: Bytes)
    requires r.table == [Single(first), Single(second)] && Short(first) && Short(second)
    requires Short(Hdr(IDX_SERVER, [], server)) && Short(Hdr(IDX_VIA, [], via))
    ensures var fs := Stock(r, server, via);
            TableShort(fs) && fs[..|fs| - 1] == [Single(first), Single(second), Single(Hdr(IDX_SERVER, [], server))]
  {
    hide TableShort;
    hide Kept;
    TwoKept(r.table);
    StockShort(r, server, via);
    TwoServed(first, second, first, []);
  }

  lemma TwoKept(table: seq<Field>)
    requires |table| == 2 && forall i :: 0 <= i < 2 ==> !table[i].hopByHop && table[i].hdrs != []
    ensures Kept(table, 2) == table
  {
    assert Kept(table, 0) == [];
    assert Kept(table, 1) == [table[0]];
  }

  lemma ServedNone(names: seq<Bytes>)
    ensures TableShort([]) && TableDecodable([], |names|) && WireAll([], false, names) == []
  {}

  /** A header more. */
  lemma ServedNext(fs: seq<Field>, h: Hdr, names: seq<Bytes>)
    ensures var fs' := fs + [Single(h)];
            && (TableShort(fs') <==> TableShort(fs) && Short(h))
            && (TableDecodable(fs', |names|) <==> TableDecodable(fs, |names|) && Decodable(h, |names|))
            && WireAll(fs', false, names) == WireAll(fs, false, names) + [Line(h, names)]
  {
    hide Line;
    hide Short;
    hide Decodable;
    var fs' := fs + [Single(h)];
    assert fs'[..|fs|] == fs && [h][..0] == [];
    assert AllShort([h]) <==> Short(h);
    assert AllDecodable([h], |names|) <==> Decodable(h, |names|);
    assert Wire([h], false, names) == [Line(h, names)];
  }

  /** A response with two headers, the first of them without a value, stored and served in HTTP/1.1: what
      the client gets is the line of a header whose value is the text of the second. */
  method RunTogether(r: Resp, first: Hdr, second: Hdr, server: Bytes, via: Bytes, fixed: nat, names: seq<Bytes>)
      returns (o: Outcome, inside: bool, out: seq<Bytes>)
    requires r.Ok() && r.table == [Single(first), Single(second)] && first.value == [] && second.value != []
    requires Short(first) && Short(second) && Decodable(first, |names|) && Decodable(second, |names|)
    requires server != [] && via != [] && IDX_SERVER <= |names|
    requires Short(Hdr(IDX_SERVER, [], server)) && Short(Hdr(IDX_VIA, [], via))
    ensures o == Fine && inside && |out| == 5
    ensures out[1] + out[2] == Line(first.(value := NameOf(second, names) + DLM + second.value), names)
  {
    hide Line;
    hide Short;
    hide Kept;
    hide WireAll;
    hide FieldCells;
    hide TableShort;
    hide TableDecodable;
    ShortFits(first);
    ShortFits(second);
    ShortFits(Hdr(IDX_SERVER, [], server));
    ShortFits(Hdr(IDX_VIA, [], via));
    assert HdrBytes(Hdr(IDX_SERVER, [], server)) == AddedBytes(IDX_SERVER, server);
    assert HdrBytes(Hdr(IDX_VIA, [], via)) == AddedBytes(IDX_VIA, via);
    TwoStored(r, first, second, server, via);
    TwoServed(first, second, Hdr(IDX_SERVER, [], server), names);
    assert Decodable(Hdr(IDX_SERVER, [], server), |names|);
    LinesMeet(first, second, names);
    o, inside, out := StoreAndServe(r, server, via, fixed, false, names);
  }

  lemma LinesMeet(first: Hdr, second: Hdr, names: seq<Bytes>)
    requires first.value == [] && second.value != []
    ensures Line(first, names) + Line(second, names) ==
            Line(first.(value := NameOf(second, names) + DLM + second.value), names)
  {
    assert NameOf(first.(value := NameOf(second, names) + DLM + second.value), names) == NameOf(first, names);
  }

  lemma CellsThree(d: seq<Cell>, a: Bytes, b: Bytes, c: Bytes)
    ensures d + Cells(a) + Cells(b) + Cells(c) == d + Cells(a + b + c)
  {}

  lemma FillHead(d: seq<Cell>, c: seq<Cell>, dup: bool, len: nat)
    ensures (d + HeadCells(false, 0) + c)[|d| := Head(dup, len)] == d + (HeadCells(dup, len) + c)
  {}
}
