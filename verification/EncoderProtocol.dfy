/** The two ends of the header compression of one connection: response messages that share the
    encoder's dynamic index under its guard (fw/hpack.c:3134-3229), are sent and leave the index
    (fw/http.c:873-895), and the client, whose table follows the header blocks in the order they
    are sent. */
module EncoderProtocol {
  import opened Basics
  import opened Headers
  import opened EncoderSpec
  import Fifo

  // ----- header blocks and the client

  /** A header field on the wire (section 6 of RFC 7541). A name index of 0 means that the name is
      given literally. */
  datatype Field =
    | Indexed(index: nat)
    | Literal(add: bool, nameIndex: nat, name: Bytes, value: Bytes)

  /** Section 2.3.3 of RFC 7541: static entries first, then the dynamic table, newest first. */
  function Resolve(statics: seq<Header>, t: seq<Header>, index: nat): Option<Header> {
    if 1 <= index <= |statics| then Some(statics[index - 1])
    else if index > |statics| && Fifo.HasIndex(t, index - |statics|) then Some(Fifo.AtIndex(t, index - |statics|))
    else None
  }

  datatype Decoded = Decoded(headers: seq<Header>, table: seq<Header>)

  function DecodeField(statics: seq<Header>, window: nat, t: seq<Header>, f: Field): Option<Decoded> {
    match f
    case Indexed(i) =>
      var h := Resolve(statics, t, i);
      if h.None? then None else Some(Decoded([h.value], t))
    case Literal(add, i, name, value) =>
      var n := if i == 0 then Some(Header(name, value)) else Resolve(statics, t, i);
      if n.None? then None
      else
        var h := Header(n.value.name, value);
        Some(Decoded([h], if add then Fifo.Add(t, window, h) else t))
  }

  /** A header block, field by field. */
  function Decode(statics: seq<Header>, window: nat, t: seq<Header>, fields: seq<Field>): Option<Decoded>
    decreases |fields|
  {
    if fields == [] then Some(Decoded([], t))
    else
      var d := Decode(statics, window, t, fields[..|fields| - 1]);
      if d.None? then None
      else
        var e := DecodeField(statics, window, d.value.table, fields[|fields| - 1]);
        if e.None? then None else Some(Decoded(d.value.headers + e.value.headers, e.value.table))
  }

  // ----- what is emitted for a header (fw/hpack.c:3701-3826)

  /** A header to send, with the static index the parser attached: 0 for none, and whether it
      covers the value too. */
  datatype Request = Request(hdr: Header, staticIndex: nat, staticFull: bool)

  ghost predicate ValidRequest(statics: seq<Header>, r: Request) {
    && r.staticIndex <= |statics|
    && (r.staticIndex > 0 ==> statics[r.staticIndex - 1].name == r.hdr.name)
    && (r.staticFull ==> r.staticIndex > 0 && statics[r.staticIndex - 1] == r.hdr)
  }

  function Emit(r: Request, a: Answer): Field {
    if r.staticFull then Indexed(r.staticIndex)
    else if a.res == Full then Indexed(a.index)
    else if r.staticIndex > 0 then Literal(a.added, r.staticIndex, [], r.hdr.value)
    else if a.res == NameOnly then Literal(a.added, a.index, [], r.hdr.value)
    else Literal(a.added, 0, r.hdr.name, r.hdr.value)
  }

  // ----- the state machine

  /** A message encodes its headers, is sent, reads the guard to leave, writes it, and is done. */
  datatype Phase = Encoding | Sent | Leaving(negative: bool) | Done

  datatype Message = Message(phase: Phase, entered: bool, fields: seq<Field>, meant: seq<Header>)

  datatype Delivery = Delivery(meant: seq<Header>, got: Option<seq<Header>>)

  datatype State = State(
    enc: seq<Header>, guard: int, client: seq<Header>, msgs: map<nat, Message>, log: seq<Delivery>)

  /** The connection's constants: the static table and the agreed window. */
  datatype Config = Config(statics: seq<Header>, window: nat)

  ghost predicate Init(s: State) {
    s == State([], 0, [], map[], [])
  }

  ghost predicate Start(s: State, s': State, m: nat) {
    m !in s.msgs && s' == s.(msgs := s.msgs[m := Message(Encoding, false, [], [])])
  }

  /** Headers with a full static index, and those of responses from the cache, do without the
      dynamic index. */
  ghost predicate EncodeStatic(c: Config, s: State, s': State, m: nat, r: Request) {
    && m in s.msgs && s.msgs[m].phase == Encoding && ValidRequest(c.statics, r)
    && var x := s.msgs[m];
    s' == s.(msgs := s.msgs[m := x.(fields := x.fields + [Emit(r, Answer(NotFound, false, 0))],
                            meant := x.meant + [r.hdr])])
  }

  ghost predicate EncodeDynamic(c: Config, s: State, s': State, m: nat, r: Request, a: Answer) {
    && m in s.msgs && s.msgs[m].phase == Encoding && ValidRequest(c.statics, r) && !r.staticFull
    && var x := s.msgs[m];
    && m in s'.msgs
    && EncodeStep(s.enc, c.window, s.guard, x.entered, r.hdr, s'.enc, s'.guard, s'.msgs[m].entered, a)
    && s' == s.(enc := s'.enc, guard := s'.guard,
                msgs := s.msgs[m := x.(entered := s'.msgs[m].entered,
                                       fields := x.fields + [Emit(r, a)], meant := x.meant + [r.hdr])])
  }

  ghost predicate Send(c: Config, s: State, s': State, m: nat) {
    && m in s.msgs && s.msgs[m].phase == Encoding
    && var x := s.msgs[m];
    var d := Decode(c.statics, c.window, s.client, x.fields);
    s' == s.(msgs := s.msgs[m := x.(phase := Sent)],
             client := if d.None? then s.client else d.value.table,
             log := s.log + [Delivery(x.meant, if d.None? then None else Some(d.value.headers))])
  }

  /** Leaving is two steps: the guard is read without the lock, then written. */
  ghost predicate ReadGuard(s: State, s': State, m: nat) {
    && m in s.msgs && s.msgs[m].phase == Sent && s.msgs[m].entered
    && s' == s.(msgs := s.msgs[m := s.msgs[m].(phase := Leaving(s.guard < 0))])
  }

  ghost predicate WriteGuard(s: State, s': State, m: nat) {
    && m in s.msgs && s.msgs[m].phase.Leaving? && s.msgs[m].entered
    && s' == s.(guard := if s.msgs[m].phase.negative then 0 else s.guard - 1,
                msgs := s.msgs[m := s.msgs[m].(phase := Done, entered := false)])
  }

  datatype Step =
    | StartStep(m: nat)
    | StaticStep(m: nat, r: Request)
    | DynamicStep(m: nat, r: Request, a: Answer)
    | SendStep(m: nat)
    | ReadStep(m: nat)
    | WriteStep(m: nat)

  ghost predicate NextStep(c: Config, s: State, s': State, step: Step) {
    match step
    case StartStep(m) => Start(s, s', m)
    case StaticStep(m, r) => EncodeStatic(c, s, s', m, r)
    case DynamicStep(m, r, a) => EncodeDynamic(c, s, s', m, r, a)
    case SendStep(m) => Send(c, s, s', m)
    case ReadStep(m) => ReadGuard(s, s', m)
    case WriteStep(m) => WriteGuard(s, s', m)
  }

  ghost predicate Run(c: Config, run: seq<State>, steps: seq<Step>) {
    && |run| == |steps| + 1 && Init(run[0])
    && forall i :: 0 <= i < |steps| ==> NextStep(c, run[i], run[i + 1], steps[i])
  }

  // ----- the invariant

  ghost function Entered(s: State): set<nat> {
    set m | m in s.msgs && s.msgs[m].entered
  }

  /** The block means the headers it was made for, read with the table t, and leaves t'. */
  ghost predicate Means(c: Config, x: Message, t: seq<Header>, t': seq<Header>) {
    Decode(c.statics, c.window, t, x.fields) == Some(Decoded(x.meant, t'))
  }

  /** The block means the headers it was made for whatever the table is, and leaves it alone. */
  ghost predicate Neutral(c: Config, x: Message) {
    forall t :: Means(c, x, t, t)
  }

  ghost predicate GuardCounts(s: State) {
    && s.guard >= -1
    && (s.guard == -1 ==> |Entered(s)| == 1)
    && (s.guard >= 0 ==> |Entered(s)| == s.guard)
  }

  ghost predicate MessageInv(c: Config, s: State, m: nat)
    requires m in s.msgs
  {
    var x := s.msgs[m];
    && (x.phase == Encoding && !x.entered ==> Neutral(c, x))
    && (x.phase == Encoding && x.entered ==> Means(c, x, s.client, s.enc))
    && (x.phase.Leaving? ==> x.entered && (x.phase.negative <==> s.guard == -1))
    && (x.phase == Done ==> !x.entered)
  }

  ghost predicate Inv(c: Config, s: State) {
    && |c.statics| == STATIC_ENTRIES
    && GuardCounts(s)
    && (forall m :: m in s.msgs ==> MessageInv(c, s, m))
    && (s.guard >= 0 ==> s.client == s.enc)
    && (s.guard == -1 && (exists m :: m in s.msgs && s.msgs[m].entered && s.msgs[m].phase != Encoding) ==>
        s.client == s.enc)
    && (forall d :: d in s.log ==> d.got == Some(d.meant))
  }

  // ----- fields mean what they were made for

  lemma DecodeAppend(c: Config, t: seq<Header>, fields: seq<Field>, f: Field)
    ensures Decode(c.statics, c.window, t, fields + [f]) ==
      var d := Decode(c.statics, c.window, t, fields);
      if d.None? then None
      else
        var e := DecodeField(c.statics, c.window, d.value.table, f);
        if e.None? then None else Some(Decoded(d.value.headers + e.value.headers, e.value.table))
  {
    assert (fields + [f])[..|fields + [f]| - 1] == fields;
  }

  /** A field made without the dynamic index means its header under every table. */
  lemma StaticFieldMeans(c: Config, r: Request, t: seq<Header>)
    requires ValidRequest(c.statics, r)
    ensures DecodeField(c.statics, c.window, t, Emit(r, Answer(NotFound, false, 0))) == Some(Decoded([r.hdr], t))
  {}

  /** A field made from an answer means its header under the table the answer was given for, and
      takes that table where the encoder took its own. */
  lemma DynamicFieldMeans(c: Config, r: Request, a: Answer, t: seq<Header>)
    requires |c.statics| == STATIC_ENTRIES && ValidRequest(c.statics, r) && !r.staticFull
    requires Searched(t, r.hdr, a.res, a.index) && (a.added ==> a.res != Full)
    ensures DecodeField(c.statics, c.window, t, Emit(r, a)) ==
      Some(Decoded([r.hdr], if a.added then Fifo.Add(t, c.window, r.hdr) else t))
  {}

  lemma MeansAppend(c: Config, x: Message, t: seq<Header>, t': seq<Header>, f: Field, h: Header, t'': seq<Header>)
    requires Means(c, x, t, t') && DecodeField(c.statics, c.window, t', f) == Some(Decoded([h], t''))
    ensures Means(c, x.(fields := x.fields + [f], meant := x.meant + [h]), t, t'')
  {
    DecodeAppend(c, t, x.fields, f);
  }

  // ----- every step keeps the invariant

  lemma EnteredAfter(s: State, s': State, m: nat, x: Message)
    requires s'.msgs == s.msgs[m := x]
    ensures Entered(s') == if x.entered then Entered(s) + {m} else Entered(s) - {m}
  {}

  /** With a writer, or with one reader that is m, no other message is entered. */
  lemma OnlyEntered(s: State, m: nat)
    requires GuardCounts(s) && m in s.msgs && s.msgs[m].entered && s.guard <= 1
    ensures Entered(s) == {m} && s.guard != 0
    ensures forall k :: k in s.msgs && s.msgs[k].entered ==> k == m
  {
    assert m in Entered(s);
    forall k | k in s.msgs && s.msgs[k].entered ensures k == m {
      assert k in Entered(s);
      CardinalityMonotone({m, k}, Entered(s));
    }
    assert Entered(s) == {m};
  }

  lemma NoneEntered(s: State)
    requires GuardCounts(s) && s.guard == 0
    ensures Entered(s) == {}
    ensures forall k :: k in s.msgs ==> !s.msgs[k].entered
  {
    forall k | k in s.msgs ensures !s.msgs[k].entered {
      assert s.msgs[k].entered ==> k in Entered(s);
    }
  }

  lemma CardinalityMonotone(a: set<nat>, b: set<nat>)
    requires a <= b
    ensures |a| <= |b|
  {
    assert b == a + (b - a);
  }

  lemma StaticKeeps(c: Config, s: State, s': State, m: nat, r: Request)
    requires Inv(c, s) && EncodeStatic(c, s, s', m, r)
    ensures Inv(c, s')
  {
    var x, x', f := s.msgs[m], s'.msgs[m], Emit(r, Answer(NotFound, false, 0));
    EnteredAfter(s, s', m, x');
    assert Entered(s') == Entered(s);
    forall t ensures DecodeField(c.statics, c.window, t, f) == Some(Decoded([r.hdr], t)) {
      StaticFieldMeans(c, r, t);
    }
    assert MessageInv(c, s, m);
    if x.entered {
      MeansAppend(c, x, s.client, s.enc, f, r.hdr, s.enc);
    } else {
      forall t ensures Means(c, x', t, t) {
        assert Means(c, x, t, t);
        MeansAppend(c, x, t, t, f, r.hdr, t);
      }
    }
    forall k | k in s'.msgs ensures MessageInv(c, s', k) {
      if k != m { assert MessageInv(c, s, k); }
    }
  }

  lemma SendKeeps(c: Config, s: State, s': State, m: nat)
    requires Inv(c, s) && Send(c, s, s', m)
    ensures Inv(c, s')
    ensures s'.log == s.log + [Delivery(s.msgs[m].meant, Some(s.msgs[m].meant))]
  {
    var x, x' := s.msgs[m], s'.msgs[m];
    EnteredAfter(s, s', m, x');
    assert Entered(s') == Entered(s);
    assert MessageInv(c, s, m);
    if x.entered {
      assert Means(c, x, s.client, s.enc);
    } else {
      assert Means(c, x, s.client, s.client);
    }
    assert s'.client == if x.entered then s.enc else s.client;
    if x.entered && s.guard == -1 { OnlyEntered(s, m); }
    forall k | k in s'.msgs ensures MessageInv(c, s', k) {
      assert MessageInv(c, s, k);
    }
    if s.guard == -1 && !x.entered {
      forall k | k in s'.msgs && s'.msgs[k].entered && s'.msgs[k].phase != Encoding ensures s.client == s.enc {
        assert k != m;
      }
    }
  }

  lemma ReadKeeps(c: Config, s: State, s': State, m: nat)
    requires Inv(c, s) && ReadGuard(s, s', m)
    ensures Inv(c, s')
  {
    EnteredAfter(s, s', m, s'.msgs[m]);
    assert Entered(s') == Entered(s);
    assert m in Entered(s);
    forall k | k in s'.msgs ensures MessageInv(c, s', k) {
      assert MessageInv(c, s, k);
    }
  }

  /** The unlocked read is harmless: the guard still has the sign it had. */
  lemma WriteKeeps(c: Config, s: State, s': State, m: nat)
    requires Inv(c, s) && WriteGuard(s, s', m)
    ensures Inv(c, s')
  {
    var x := s.msgs[m];
    assert MessageInv(c, s, m);
    EnteredAfter(s, s', m, s'.msgs[m]);
    assert m in Entered(s);
    assert |Entered(s')| == |Entered(s)| - 1;
    if s.guard == -1 { OnlyEntered(s, m); }
    forall k | k in s'.msgs ensures MessageInv(c, s', k) {
      assert MessageInv(c, s, k);
    }
  }

  /** A message that becomes, or is, the writer: nobody else is entered, and its block leads the
      client to the encoder's new table. */
  lemma AddKeeps(c: Config, s: State, s': State, m: nat, r: Request, a: Answer)
    requires Inv(c, s) && EncodeDynamic(c, s, s', m, r, a) && a.added
    ensures Inv(c, s') && Entered(s) <= {m}
  {
    var x, x' := s.msgs[m], s'.msgs[m];
    EnteredAfter(s, s', m, x');
    assert MessageInv(c, s, m);
    if x.entered { OnlyEntered(s, m); } else { NoneEntered(s); }
    assert Entered(s') == {m};
    assert Means(c, x, s.client, s.enc);
    DynamicFieldMeans(c, r, a, s.enc);
    MeansAppend(c, x, s.client, s.enc, Emit(r, a), r.hdr, s'.enc);
    forall k | k in s'.msgs ensures MessageInv(c, s', k) {
      assert MessageInv(c, s, k);
      assert k != m ==> !s.msgs[k].entered && s'.msgs[k] == s.msgs[k];
      assert k == m ==> s'.msgs[m] == x.(entered := true, fields := x'.fields, meant := x'.meant);
    }
  }

  lemma ReferKeeps(c: Config, s: State, s': State, m: nat, r: Request, a: Answer)
    requires Inv(c, s) && EncodeDynamic(c, s, s', m, r, a) && !a.added && (s.msgs[m].entered || s.guard >= 0)
    requires a.res != NotFound || s.msgs[m].entered
    ensures Inv(c, s')
  {
    var x, x' := s.msgs[m], s'.msgs[m];
    EnteredAfter(s, s', m, x');
    assert MessageInv(c, s, m);
    assert x.entered <==> m in Entered(s);
    assert Means(c, x, s.client, s.enc);
    DynamicFieldMeans(c, r, a, s.enc);
    MeansAppend(c, x, s.client, s.enc, Emit(r, a), r.hdr, s.enc);
    if x.entered {
      assert Entered(s') == Entered(s);
    } else {
      assert Entered(s') == Entered(s) + {m};
    }
    forall k | k in s'.msgs ensures MessageInv(c, s', k) {
      assert MessageInv(c, s, k);
    }
  }

  lemma DynamicKeeps(c: Config, s: State, s': State, m: nat, r: Request, a: Answer)
    requires Inv(c, s) && EncodeDynamic(c, s, s', m, r, a)
    ensures Inv(c, s')
  {
    if a.added {
      AddKeeps(c, s, s', m, r, a);
    } else if s.msgs[m].entered || (s.guard >= 0 && a.res != NotFound) {
      ReferKeeps(c, s, s', m, r, a);
    } else {
      assert a == Answer(NotFound, false, 0);
      StaticKeeps(c, s, s', m, r);
    }
  }

  lemma StartKeeps(c: Config, s: State, s': State, m: nat)
    requires Inv(c, s) && Start(s, s', m)
    ensures Inv(c, s')
  {
    EnteredAfter(s, s', m, s'.msgs[m]);
    assert m !in Entered(s);
    assert Entered(s') == Entered(s);
    forall k | k in s'.msgs ensures MessageInv(c, s', k) {
      if k != m { assert MessageInv(c, s, k); }
    }
  }

  lemma NextKeeps(c: Config, s: State, s': State, step: Step)
    requires Inv(c, s) && NextStep(c, s, s', step)
    ensures Inv(c, s')
  {
    match step
    case StartStep(m) => StartKeeps(c, s, s', m);
    case StaticStep(m, r) => StaticKeeps(c, s, s', m, r);
    case DynamicStep(m, r, a) => DynamicKeeps(c, s, s', m, r, a);
    case SendStep(m) => SendKeeps(c, s, s', m);
    case ReadStep(m) => ReadKeeps(c, s, s', m);
    case WriteStep(m) => WriteKeeps(c, s, s', m);
  }

  // ----- the main results

  lemma {:induction false} RunKeeps(c: Config, run: seq<State>, steps: seq<Step>, i: nat)
    requires |c.statics| == STATIC_ENTRIES && Run(c, run, steps) && i < |run|
    ensures Inv(c, run[i])
  {
    if i > 0 {
      RunKeeps(c, run, steps, i - 1);
      NextKeeps(c, run[i - 1], run[i], steps[i - 1]);
    } else {
      assert Entered(run[0]) == {};
    }
  }

  /** In every run, every block the client has received decoded to exactly the headers the
      encoder meant by it. */
  lemma ClientAgrees(c: Config, run: seq<State>, steps: seq<Step>, i: nat)
    requires |c.statics| == STATIC_ENTRIES && Run(c, run, steps) && i < |run|
    ensures forall d :: d in run[i].log ==> d.got == Some(d.meant)
  {
    RunKeeps(c, run, steps, i);
  }

  /** When no message is inside, both ends have the same table. */
  lemma TablesAgree(c: Config, run: seq<State>, steps: seq<Step>, i: nat)
    requires |c.statics| == STATIC_ENTRIES && Run(c, run, steps) && i < |run|
    ensures (forall m :: m in run[i].msgs ==> !run[i].msgs[m].entered) ==> run[i].client == run[i].enc
    ensures (forall m :: m in run[i].msgs ==> !run[i].msgs[m].entered) ==> run[i].guard == 0
  {
    RunKeeps(c, run, steps, i);
    if forall m :: m in run[i].msgs ==> !run[i].msgs[m].entered {
      assert Entered(run[i]) == {};
    }
  }

  /** The guard counts the messages inside: -1 for one writer, k for k readers. */
  lemma GuardMeans(c: Config, run: seq<State>, steps: seq<Step>, i: nat)
    requires |c.statics| == STATIC_ENTRIES && Run(c, run, steps) && i < |run|
    ensures run[i].guard == -1 ==> |Entered(run[i])| == 1
    ensures run[i].guard >= 0 ==> |Entered(run[i])| == run[i].guard
    ensures run[i].guard >= -1
  {
    RunKeeps(c, run, steps, i);
  }

  /** Between entering and leaving, a message sees the table change only by its own hand. */
  lemma TableIsStable(c: Config, run: seq<State>, steps: seq<Step>, i: nat, m: nat)
    requires |c.statics| == STATIC_ENTRIES && Run(c, run, steps) && i < |steps|
    requires m in run[i].msgs && run[i].msgs[m].entered && run[i + 1].enc != run[i].enc
    ensures steps[i].DynamicStep? && steps[i].m == m
  {
    RunKeeps(c, run, steps, i);
    assert NextStep(c, run[i], run[i + 1], steps[i]);
    var step := steps[i];
    if step.DynamicStep? {
      AddKeeps(c, run[i], run[i + 1], step.m, step.r, step.a);
      assert m in Entered(run[i]);
    }
  }
}
