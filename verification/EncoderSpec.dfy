/** What one request to the encoder's dynamic index does (fw/hpack.c:3134-3210), on the table as a
    list and the guard as a number. */
module EncoderSpec {
  import opened Headers
  import Fifo

  datatype Found = Full | NameOnly | NotFound

  /** The answer for one header: how much of it was found, whether it was added, and the index. */
  datatype Answer = Answer(res: Found, added: bool, index: nat)

  /** The index points at a table entry. */
  ghost predicate Points(t: seq<Header>, index: nat, e: Header) {
    Fifo.HasIndex(t, index - STATIC_ENTRIES) && Fifo.AtIndex(t, index - STATIC_ENTRIES) == e
  }

  /** What the search reports is what a scan of the whole table would. */
  ghost predicate Searched(t: seq<Header>, hdr: Header, res: Found, index: nat) {
    && (res == Full <==> hdr in t)
    && (res == NameOnly <==> hdr !in t && exists e :: e in t && e.name == hdr.name)
    && (res == Full ==> Points(t, index, hdr))
    && (res == NameOnly ==> exists e :: Points(t, index, e) && e.name == hdr.name)
    && (res == NotFound ==> index == 0)
  }

  /** One request of a message that has entered the index or not. */
  ghost predicate EncodeStep(t: seq<Header>, window: nat, guard: int, entered: bool, hdr: Header,
                             t': seq<Header>, guard': int, entered': bool, a: Answer)
  {
    if !entered && guard < 0 then
      a == Answer(NotFound, false, 0) && t' == t && guard' == guard && entered' == entered
    else
      && Searched(t, hdr, a.res, a.index)
      && (a.added ==>
          && a.res != Full && EntrySize(hdr) <= window
          && (if entered then guard <= 1 else guard == 0)
          && t' == Fifo.Add(t, window, hdr) && guard' == -1 && entered')
      && (!a.added ==>
          && t' == t
          && guard' == (if !entered && a.res != NotFound then guard + 1 else guard)
          && (entered' <==> entered || a.res != NotFound))
  }

  // ----- its three cases

  lemma StepAway(t: seq<Header>, window: nat, guard: int, hdr: Header)
    requires guard < 0
    ensures EncodeStep(t, window, guard, false, hdr, t, guard, false, Answer(NotFound, false, 0))
  {}

  lemma StepRead(t: seq<Header>, window: nat, guard: int, entered: bool, hdr: Header, res: Found, index: nat)
    requires (entered || guard >= 0) && Searched(t, hdr, res, index)
    ensures res == Full <==> hdr in t
    ensures EncodeStep(t, window, guard, entered, hdr, t, if !entered && res != NotFound then guard + 1 else guard,
                       entered || res != NotFound, Answer(res, false, index))
  {}

  lemma StepAdd(t: seq<Header>, window: nat, guard: int, entered: bool, hdr: Header, res: Found, index: nat)
    requires (if entered then guard <= 1 else guard == 0) && Searched(t, hdr, res, index) && res != Full
    requires EntrySize(hdr) <= window
    ensures EncodeStep(t, window, guard, entered, hdr, Fifo.Add(t, window, hdr), -1, true, Answer(res, true, index))
  {}
}
