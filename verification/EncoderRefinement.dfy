/** The encoder's index as it is in the program, step by step with the protocol of its messages: what the
    index does is a step of EncoderProtocol, and so its theorems are about the index. */
module EncoderRefinement {
  import opened Basics
  import opened Headers
  import opened EncoderSpec
  import opened EncoderTable
  import opened EncoderProtocol
  import RingLayout
  import Fifo

  /** The index is in the state that the protocol speaks of. */
  ghost predicate Refines(tbl: EncTable, c: Config, s: State)
    reads tbl, tbl.st
  {
    tbl.Valid() && tbl.window == c.window && tbl.Table() == s.enc && tbl.guard == s.guard
  }

  /** A fresh index is the initial state. */
  lemma StartsRefined(tbl: EncTable, c: Config)
    requires tbl.Valid() && tbl.head == tbl.tail == [] && tbl.guard == 0 && tbl.window == c.window
    ensures Refines(tbl, c, State([], 0, [], map[], [])) && Init(State([], 0, [], map[], []))
  {
    assert tbl.head + tbl.tail == [];
    assert tbl.Table() == [];
  }

  /** A request of a message (fw/hpack.c:3134-3210) is a step of the protocol, unless it is an attempt at an
      addition that evicts every entry. */
  method Encode(tbl: EncTable, r: Request, entered: bool, ghost c: Config, ghost s: State, ghost m: nat)
      returns (a: Answer, entered': bool, ghost s': State)
    requires Refines(tbl, c, s) && m in s.msgs && s.msgs[m].phase == Encoding && s.msgs[m].entered == entered
    requires ValidRequest(c.statics, r) && !r.staticFull
    requires !(tbl.Attempts(r.hdr, entered) && tbl.Flushes(r.hdr))
    modifies tbl, tbl.st
    ensures NextStep(c, s, s', DynamicStep(m, r, a)) && Refines(tbl, c, s')
    ensures m in s'.msgs && s'.msgs[m].entered == entered'
  {
    hide EncTable.Valid;
    hide EncTable.Table;
    hide EncTable.Flushes;
    hide EncTable.Accepts;
    hide EncTable.Attempts;
    hide EncTable.Outdated;
    hide EncodeStep;
    var outcome;
    a, entered', outcome := tbl.EncoderIndex(r.hdr, entered);
    ghost var x := s.msgs[m];
    s' := s.(enc := tbl.Table(), guard := tbl.guard,
             msgs := s.msgs[m := x.(entered := entered', fields := x.fields + [Emit(r, a)],
                                    meant := x.meant + [r.hdr])]);
  }

  /** The first step of leaving (fw/hpack.c:3220): the guard is read, without the lock. */
  method ReadRelease(tbl: EncTable, ghost c: Config, ghost s: State, ghost m: nat)
    returns (negative: bool, ghost s': State)
    requires Refines(tbl, c, s) && Inv(c, s) && m in s.msgs && s.msgs[m].phase == Sent && s.msgs[m].entered
    ensures NextStep(c, s, s', ReadStep(m)) && Refines(tbl, c, s') && Inv(c, s')
    ensures m in s'.msgs && s'.msgs[m].phase == Leaving(negative)
  {
    hide EncTable.Valid;
    hide EncTable.Table;
    negative := tbl.guard < 0;
    s' := s.(msgs := s.msgs[m := s.msgs[m].(phase := Leaving(negative))]);
    ReadKeeps(c, s, s', m);
  }

  /** The second step (fw/hpack.c:3220-3228): whatever the others have done in between, the guard that is
      written counts the messages that are still inside, and the warning of line 3224 is not met. */
  method WriteRelease(tbl: EncTable, negative: bool, ghost c: Config, ghost s: State, ghost m: nat)
    returns (ghost s': State)
    requires Refines(tbl, c, s) && Inv(c, s) && m in s.msgs && s.msgs[m].phase == Leaving(negative)
    modifies tbl`guard
    ensures NextStep(c, s, s', WriteStep(m)) && Refines(tbl, c, s') && Inv(c, s')
    ensures old(tbl.guard) != 0 && tbl.guard >= 0 && |Entered(s')| == tbl.guard && Entered(s') == Entered(s) - {m}
  {
    hide EncTable.Valid;
    hide EncTable.Table;
    assert m in Entered(s);
    ghost var x := s.msgs[m];
    s' := s.(guard := if negative then 0 else s.guard - 1, msgs := s.msgs[m := x.(phase := Done, entered := false)]);
    WriteKeeps(c, s, s', m);
    EnteredAfter(s, s', m, x.(phase := Done, entered := false));
    if negative {
      tbl.guard := 0;
    } else {
      tbl.guard := tbl.guard - 1;
    }
    assert MessageInv(c, s, m);
  }

  /** Leaving when nobody comes in between (fw/hpack.c:3212-3229): undoes an entering. */
  method Release(tbl: EncTable, entered: bool, ghost c: Config, ghost s: State, ghost m: nat)
      returns (entered': bool, ghost s': State)
    requires Refines(tbl, c, s) && Inv(c, s) && m in s.msgs && s.msgs[m].phase == Sent && s.msgs[m].entered == entered
    modifies tbl`guard
    ensures !entered' && Refines(tbl, c, s') && Inv(c, s') && m in s'.msgs && !s'.msgs[m].entered
    ensures Entered(s') == Entered(s) - {m} && s'.enc == s.enc && s'.client == s.client && s'.log == s.log
    ensures entered && Entered(s) == {m} ==> tbl.guard == 0
  {
    hide EncTable.Valid;
    hide EncTable.Table;
    hide Inv;
    s', entered' := s, false;
    if entered {
      var negative;
      negative, s' := ReadRelease(tbl, c, s, m);
      assert Entered(s') == Entered(s);
      s' := WriteRelease(tbl, negative, c, s', m);
    }
  }

  /** What an addition that evicts every entry leads to when the new node ends before the node that
      should have gone: a search for the entry of that node finds it, and the client, whose table is
      the list of section 4.4 of RFC 7541, finds nothing at the index it is given. */
  method LostEntry(tbl: EncTable, hdr: Header, entered: bool, ghost c: Config)
      returns (lost: bool, res: Found, index: int)
    requires tbl.Valid() && tbl.Attempts(hdr, entered) && tbl.Flushes(hdr) && |c.statics| == STATIC_ENTRIES
    modifies tbl, tbl.st
    ensures lost <==> RingLayout.NodeLen(hdr) <= old(tbl.b).last
    ensures lost ==> tbl.Table() == Fifo.Add(old(tbl.Table()), tbl.window, hdr)
    ensures lost ==> res == Full && index > 0 && DecodeField(c.statics, c.window, tbl.Table(), Indexed(index)) == None
  {
    hide EncTable.Valid;
    hide EncTable.Accepts;
    hide EncTable.Attempts;
    hide EncTable.Outdated;
    hide EncodeStep;
    tbl.FlushesSome(hdr);
    var y := tbl.b.last;
    var was := tbl.st.hdrs[y];
    assert was != hdr by { YoungestDiffers(tbl, hdr, entered); }
    hide EncTable.Flushes;
    hide EncTable.Table;
    var a, entered', outcome := tbl.EncoderIndex(hdr, entered);
    lost, res, index := outcome == Added, NotFound, 0;
    if lost {
      res, index := tbl.SearchOutdated(y, hdr, was);
    }
  }

  /** A header that is not in the table is not its youngest entry. */
  lemma YoungestDiffers(tbl: EncTable, hdr: Header, entered: bool)
    requires tbl.Valid() && tbl.Attempts(hdr, entered) && tbl.Flushes(hdr)
    ensures 0 <= tbl.b.last < |tbl.st.hdrs| && tbl.st.hdrs[tbl.b.last] != hdr
  {
    tbl.FlushesSome(hdr);
    var ring := tbl.head + tbl.tail;
    RingLayout.LaidFirst(tbl.st.hdrs, tbl.head, tbl.tail, tbl.b);
    RingLayout.LaidSums(tbl.st.hdrs, tbl.head, tbl.tail, tbl.b);
    RingLayout.LaidHead(tbl.st.hdrs, tbl.head, tbl.tail, tbl.b);
    assert tbl.Table()[|ring| - 1] == tbl.st.hdrs[tbl.b.last];
  }
}
