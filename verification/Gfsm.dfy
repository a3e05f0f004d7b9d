/** The generic state machine (fw/gfsm.c:106-271): state machines that call each other through hooks.
    A hooked machine keeps its state in one of eight slots; a machine that is on the call stack is
    not entered again. The machines themselves are arbitrary: what they do is a script of moves. */
module Gfsm {
  import opened Basics

  const SLOTS := 8
  const FSM_NUM := 5
  const PRIOS := 16
  const LAST := 31

  datatype Code = Pass | Block | Postpone

  /** A slot: free, or the machine that has it, its state, and whether it is on the call stack. */
  datatype Slot = Bad | Slot(fsm: nat, state: nat, onStack: bool)

  /** A hook: the machine it calls, and the state that machine starts in. */
  datatype Hook = Hook(fsm: nat, st0: nat)

  /** What a machine does next when it runs: move to a state, or return. */
  datatype Action = MoveTo(state: nat) | Return(code: Code)

  /** What happened to the hook of one priority: its machine was on the stack, or it ran. */
  datatype Ran = Skipped | Ran(code: Code)

  /** The results of the hooks of a state, by priority, and the result of the move: all hooks up to
      the first missing one are called, except that the ones after a blocking one are not. */
  ghost predicate HooksRan(ran: seq<Ran>, hooked: nat -> bool, r: Code) {
    && |ran| <= PRIOS && (forall p :: 0 <= p < |ran| ==> hooked(p))
    && (forall p :: 0 <= p < |ran| - 1 ==> ran[p] != Ran(Block))
    && (r == Block <==> ran != [] && ran[|ran| - 1] == Ran(Block))
    && (r == Postpone <==> r != Block && Ran(Postpone) in ran)
    && (r != Block && |ran| < PRIOS ==> !hooked(|ran|))
  }

  /** Different numbers below n are at most n. */
  lemma {:induction false} FewNumbers(s: seq<nat>, n: nat)
    requires NoDup(s) && forall i :: 0 <= i < |s| ==> s[i] < n
    ensures |s| <= n
    decreases n
  {
    assert |s| > 0 ==> s[0] < n;
    if n > 0 {
      if i :| 0 <= i < |s| && s[i] == n - 1 {
        FewNumbers(s[..i] + s[i + 1..], n - 1);
      } else {
        FewNumbers(s, n - 1);
      }
    }
  }

  ghost predicate Has(slots: seq<Slot>, i: nat, fsm: nat) {
    i < |slots| && slots[i].Slot? && slots[i].fsm == fsm
  }

  ghost predicate Marked(slots: seq<Slot>, fsm: nat) {
    exists i: nat :: Has(slots, i, fsm) && slots[i].onStack
  }

  /** The slots have different machines. */
  ghost predicate Distinct(slots: seq<Slot>) {
    && |slots| == SLOTS
    && (forall i: nat, fsm: nat :: Has(slots, i, fsm) ==> fsm < FSM_NUM)
    && (forall i: nat, j: nat, fsm: nat :: Has(slots, i, fsm) && Has(slots, j, fsm) ==> i == j)
  }

  /** The machines on the call stack are different, and they are the ones whose slot says so. */
  ghost predicate Stacked(slots: seq<Slot>, stack: seq<nat>) {
    NoDup(stack) && forall fsm: nat :: fsm in stack <==> Marked(slots, fsm)
  }

  /** There are more slots than machines: one that has none finds one. */
  lemma FreeSlot(slots: seq<Slot>, fsm: nat)
    requires Distinct(slots) && fsm < FSM_NUM && forall i: nat :: !Has(slots, i, fsm)
    ensures exists i :: 0 <= i < SLOTS && slots[i] == Bad
  {
    if forall i :: 0 <= i < SLOTS ==> slots[i].Slot? {
      var ids := seq(SLOTS, i requires 0 <= i < SLOTS => slots[i].fsm);
      forall i, j | 0 <= i < j < SLOTS ensures ids[i] != ids[j] {
        assert Has(slots, i, ids[i]) && Has(slots, j, ids[j]);
      }
      forall i | 0 <= i < SLOTS ensures ids[i] < FSM_NUM {
        assert Has(slots, i, ids[i]);
      }
      FewNumbers(ids, FSM_NUM);
    }
  }

  /** No machine is on the stack twice, so the stack is never deeper than there are machines. */
  lemma StackDepth(slots: seq<Slot>, stack: seq<nat>)
    requires Distinct(slots) && Stacked(slots, stack)
    ensures |stack| <= FSM_NUM && NoDup(stack)
  {
    forall k | 0 <= k < |stack| ensures stack[k] < FSM_NUM {
      assert stack[k] in stack;
    }
    FewNumbers(stack, FSM_NUM);
  }

  /** A machine enters the stack, and leaves it with its state or without. */
  lemma Enter(slots: seq<Slot>, stack: seq<nat>, i: nat, fsm: nat)
    requires Distinct(slots) && Stacked(slots, stack) && Has(slots, i, fsm) && !slots[i].onStack
    ensures var slots' := slots[i := slots[i].(onStack := true)];
            Distinct(slots') && Stacked(slots', stack + [fsm]) && Has(slots', i, fsm)
  {
    var slots' := slots[i := slots[i].(onStack := true)];
    forall j: nat, f: nat ensures Has(slots', j, f) <==> Has(slots, j, f) {}
    assert fsm !in stack;
    forall f: nat ensures f in stack + [fsm] <==> Marked(slots', f) {
      if Marked(slots, f) {
        var j: nat :| Has(slots, j, f) && slots[j].onStack;
        assert Has(slots', j, f) && slots'[j].onStack;
      }
      if Marked(slots', f) {
        var j: nat :| Has(slots', j, f) && slots'[j].onStack;
        assert j != i ==> Has(slots, j, f) && slots[j].onStack;
      }
      assert f == fsm ==> Has(slots', i, f) && slots'[i].onStack;
    }
  }

  lemma Leave(slots: seq<Slot>, stack: seq<nat>, i: nat, fsm: nat, slot: Slot)
    requires Distinct(slots) && Stacked(slots, stack + [fsm]) && Has(slots, i, fsm)
    requires slot == Bad || (slot.Slot? && slot.fsm == fsm && !slot.onStack)
    ensures Distinct(slots[i := slot]) && Stacked(slots[i := slot], stack)
  {
    var slots', all := slots[i := slot], stack + [fsm];
    assert all[|stack|] == fsm;
    forall j: nat, f: nat | Has(slots', j, f) ensures Has(slots, j, f) {}
    assert NoDup(stack) && fsm !in stack by {
      forall k | 0 <= k < |stack| ensures stack[k] != fsm {
        assert all[k] == stack[k];
      }
      forall k, l | 0 <= k < l < |stack| ensures stack[k] != stack[l] {
        assert all[k] == stack[k] && all[l] == stack[l];
      }
    }
    forall f: nat ensures f in stack <==> Marked(slots', f) {
      assert f in all <==> Marked(slots, f);
      if f in stack {
        assert f in all;
        var j: nat :| Has(slots, j, f) && slots[j].onStack;
        assert Has(slots', j, f) && slots'[j].onStack;
      }
      if Marked(slots', f) {
        var j: nat :| Has(slots', j, f) && slots'[j].onStack;
        assert Has(slots, j, f) && slots[j].onStack;
      }
    }
  }

  /** A slot gets another state, or a free slot a machine: the stack does not see it. */
  lemma Restate(slots: seq<Slot>, stack: seq<nat>, i: nat, slot: Slot)
    requires Distinct(slots) && Stacked(slots, stack) && i < SLOTS && slot.Slot? && slot.fsm < FSM_NUM
    requires if slots[i] == Bad then !slot.onStack && forall j: nat :: !Has(slots, j, slot.fsm)
             else slots[i].fsm == slot.fsm && slots[i].onStack == slot.onStack
    ensures Distinct(slots[i := slot]) && Stacked(slots[i := slot], stack)
  {
    var slots' := slots[i := slot];
    assert slots[i].Slot? ==> Has(slots, i, slot.fsm);
    forall j: nat, f: nat ensures Has(slots', j, f) <==> Has(slots, j, f) || (j == i && f == slot.fsm) {}
    forall f: nat ensures f in stack <==> Marked(slots', f) {
      if Marked(slots, f) {
        var j: nat :| Has(slots, j, f) && slots[j].onStack;
        assert Has(slots', j, f) && slots'[j].onStack;
      }
      if Marked(slots', f) {
        var j: nat :| Has(slots', j, f) && slots'[j].onStack;
        assert Has(slots, j, f) && slots[j].onStack;
      }
    }
  }

  /** The machines on the stack have kept their slots. */
  ghost predicate Kept(before: seq<Slot>, after: seq<Slot>) {
    |after| == |before| &&
        forall i :: 0 <= i < |before| && before[i].Slot? && before[i].onStack ==> after[i] == before[i]
  }

  class GState {
    var curr: int
    const states: array<Slot>
    /** The hooks: by machine, priority and state. */
    const hooks: (nat, nat, nat) -> Option<Hook>
    /** What the machines are going to do. */
    var script: seq<Action>
    /** The machines on the call stack, the running one last. */
    ghost var stack: seq<nat>

    /** fw/gfsm.c:110-116 */
    constructor (fsm: nat, state: nat, hooks0: (nat, nat, nat) -> Option<Hook>, script0: seq<Action>)
      requires fsm < FSM_NUM && state <= LAST
      requires forall f: nat, p: nat, s: nat ::
        hooks0(f, p, s).Some? ==> hooks0(f, p, s).value.fsm < FSM_NUM && hooks0(f, p, s).value.st0 <= LAST
      ensures Inv() && stack == [] && Has(states[..], 0, fsm) && script == script0 && fresh(states)
    {
      var slots := new Slot[SLOTS](_ => Bad);
      slots[0] := Slot(fsm, state, false);
      curr, states, hooks, script, stack := 0, slots, hooks0, script0, [];
      new;
      assert forall i: nat, f: nat :: Has(states[..], i, f) <==> i == 0 && f == fsm;
    }

    ghost predicate HooksOk() {
      forall f: nat, p: nat, s: nat ::
        hooks(f, p, s).Some? ==> hooks(f, p, s).value.fsm < FSM_NUM && hooks(f, p, s).value.st0 <= LAST
    }

    ghost predicate Inv()
      reads this, states
    {
      HooksOk() && states.Length == SLOTS && Distinct(states[..]) && Stacked(states[..], stack)
    }

    /** The machine on top of the stack runs: its slot is the current one. */
    ghost predicate Running(fsm: nat)
      reads this, states
    {
      states.Length == SLOTS && stack != [] && stack[|stack| - 1] == fsm
      && 0 <= curr < SLOTS && Has(states[..], curr, fsm) && states[curr].onStack
    }

    /** The slot of a machine, or the first free one (fw/gfsm.c:121-132). */
    method Lookup(fsm: nat) returns (i: int, free: int)
      requires states.Length == SLOTS
      ensures -1 <= i < SLOTS && -1 <= free < SLOTS
      ensures i >= 0 ==> Has(states[..], i, fsm)
      ensures i < 0 ==> (forall k: nat :: !Has(states[..], k, fsm))
      ensures i < 0 ==> (free < 0 ==> forall k :: 0 <= k < SLOTS ==> states[k].Slot?)
      ensures free >= 0 ==> states[free] == Bad
    {
      i, free := 0, -1;
      while i < SLOTS
        invariant 0 <= i <= SLOTS && -1 <= free < SLOTS
        invariant forall k :: 0 <= k < i ==> !(states[k].Slot? && states[k].fsm == fsm)
        invariant free < 0 ==> forall k :: 0 <= k < i ==> states[k].Slot?
        invariant free >= 0 ==> states[free] == Bad
      {
        if states[i].Slot? && states[i].fsm == fsm {
          return;
        }
        if free == -1 && states[i] == Bad {
          free := i;
        }
        i := i + 1;
      }
      i := -1;
    }

    /** The hooked machine becomes the current one, in a slot of its own (fw/gfsm.c:137-157). The
        BUG_ON for a missing slot is the assertion. */
    method Switch(hook: Hook)
      requires Inv() && hook.fsm < FSM_NUM && hook.st0 <= LAST
      modifies this`curr, states
      ensures Inv() && 0 <= curr < SLOTS && Has(states[..], curr, hook.fsm) && Kept(old(states[..]), states[..])
    {
      hide Distinct;
      hide Stacked;
      var i, free := Lookup(hook.fsm);
      curr := i;
      if curr < 0 {
        FreeSlot(states[..], hook.fsm);
        assert free >= 0;
        curr := free;
        ghost var before := states[..];
        Restate(before, stack, free, Slot(hook.fsm, hook.st0, false));
        states[curr] := Slot(hook.fsm, hook.st0, false);
        assert states[..] == before[free := Slot(hook.fsm, hook.st0, false)];
      }
    }

    /** A machine runs (fw/gfsm.c:171-194): its script is played, and its slot is given up if it ends in
        its last state. The BUG_ON for a missing slot is the assertion. */
    method Exec(fsm: nat) returns (r: Code)
      requires Inv() && exists i: nat :: Has(states[..], i, fsm) && !states[..][i].onStack
      modifies this, states
      ensures Inv() && stack == old(stack) && Kept(old(states[..]), states[..]) && |script| <= |old(script)|
      decreases FSM_NUM - |stack|, 0
    {
      hide Distinct;
      hide Stacked;
      ghost var before, callers := states[..], stack;
      var slot, free := Lookup(fsm);
      assert slot >= 0;
      curr := slot;
      OneSlot(before, fsm, slot);
      Enter(before, stack, slot, fsm);
      states[slot] := states[slot].(onStack := true);
      assert states[..] == before[slot := before[slot].(onStack := true)];
      stack := stack + [fsm];
      StackDepth(states[..], stack);
      r := Handler(fsm, slot);
      ghost var after := states[..];
      if states[slot].state == LAST {
        Leave(after, callers, slot, fsm, Bad);
        states[curr] := Bad;
        assert states[..] == after[slot := Bad];
        curr := -1;
      } else {
        Leave(after, callers, slot, fsm, after[slot].(onStack := false));
        states[slot] := states[slot].(onStack := false);
        assert states[..] == after[slot := after[slot].(onStack := false)];
      }
      stack := callers;
    }

    /** The machine itself: it moves as often as it likes, and returns. */
    method Handler(fsm: nat, slot: nat) returns (r: Code)
      requires Inv() && Running(fsm) && curr == slot
      modifies this, states
      ensures Inv() && stack == old(stack) && Running(fsm) && curr == slot && |script| <= |old(script)|
      ensures Kept(old(states[..])[slot := Bad], states[..])
      decreases FSM_NUM - |stack|, 3
    {
      r := Pass;
      while script != []
        invariant Inv() && stack == old(stack) && Running(fsm) && curr == slot && |script| <= |old(script)|
        invariant Kept(old(states[..])[slot := Bad], states[..])
        decreases |script|
      {
        var a := script[0];
        script := script[1..];
        match a
        case Return(code) => return code;
        case MoveTo(state) =>
          var code, ran := Move(fsm, state % 32);
      }
    }

    /** One hook (fw/gfsm.c:243-264): a machine on the stack is not entered again. */
    method Call(hook: Hook) returns (ran: Ran)
      requires Inv() && hook.fsm < FSM_NUM && hook.st0 <= LAST
      modifies this, states
      ensures Inv() && stack == old(stack) && Kept(old(states[..]), states[..]) && |script| <= |old(script)|
      ensures ran == Skipped <==> hook.fsm in stack
      decreases FSM_NUM - |stack|, 1
    {
      hide Distinct;
      hide Stacked;
      Switch(hook);
      OnStackIs(states[..], stack, curr, hook.fsm);
      if states[curr].onStack {
        return Skipped;
      }
      assert Has(states[..], curr, hook.fsm) && !states[..][curr].onStack;
      ghost var between := states[..];
      var r := Exec(hook.fsm);
      ran := Ran(r);
    }

    /** The machine enters the state it moves to (fw/gfsm.c:228-230). */
    method Remember(fsm: nat, state: nat)
      requires Inv() && Running(fsm) && state <= LAST
      modifies states
      ensures Inv() && Running(fsm) && states[curr].state == state && Kept(old(states[..])[curr := Bad], states[..])
    {
      hide Distinct;
      hide Stacked;
      ghost var before := states[..];
      HasBelow(before, curr, fsm);
      Restate(before, stack, curr, before[curr].(state := state));
      states[curr] := states[curr].(state := state);
      assert states[..] == before[curr := before[curr].(state := state)];
    }

    /** Moving to a state and calling its hooks, from the highest priority on (fw/gfsm.c:217-271). The
        machine that moves stays the current one. */
    method Move(fsm: nat, state: nat) returns (r: Code, ghost ran: seq<Ran>)
      requires Inv() && Running(fsm) && state <= LAST
      modifies this, states
      ensures Inv() && stack == old(stack) && curr == old(curr) && Running(fsm) && |script| <= |old(script)|
      ensures Kept(old(states[..])[old(curr) := Bad], states[..]) && states[curr].state == state
      ensures HooksRan(ran, (p: nat) => hooks(fsm, p, state).Some?, r)
      ensures forall p :: 0 <= p < |ran| ==>
        hooks(fsm, p, state).Some? && (ran[p] == Skipped <==> hooks(fsm, p, state).value.fsm in stack)
      decreases FSM_NUM - |stack|, 2
    {
      hide Distinct;
      hide Stacked;
      var back := curr;
      Remember(fsm, state);
      ghost var mine := states[..];
      r, ran := Pass, [];
      var p := 0;
      while p < PRIOS
        invariant 0 <= p == |ran| <= PRIOS && Inv() && stack == old(stack) && |script| <= |old(script)|
        invariant Kept(mine, states[..]) && r != Block && (r == Postpone <==> Ran(Postpone) in ran)
        invariant forall q :: 0 <= q < p ==> hooks(fsm, q, state).Some? && ran[q] != Ran(Block)
        invariant forall q :: 0 <= q < p ==> (ran[q] == Skipped <==> hooks(fsm, q, state).value.fsm in stack)
      {
        var hook := hooks(fsm, p, state);
        if hook.None? {
          break;
        }
        var done := Call(hook.value);
        ran := ran + [done];
        if done == Ran(Block) {
          r := Block;
          break;
        }
        if done == Ran(Postpone) {
          r := Postpone;
        }
        p := p + 1;
      }
      curr := back;
    }
  }

  lemma OnStackIs(slots: seq<Slot>, stack: seq<nat>, i: nat, fsm: nat)
    requires Distinct(slots) && Stacked(slots, stack) && Has(slots, i, fsm)
    ensures slots[i].onStack <==> fsm in stack
  {
    if fsm in stack {
      var j: nat :| Has(slots, j, fsm) && slots[j].onStack;
    } else {
      assert !Marked(slots, fsm);
    }
  }

  lemma HasBelow(slots: seq<Slot>, i: nat, fsm: nat)
    requires Distinct(slots) && Has(slots, i, fsm)
    ensures fsm < FSM_NUM && i < SLOTS
  {}

  lemma OneSlot(slots: seq<Slot>, fsm: nat, i: nat)
    requires Distinct(slots) && Has(slots, i, fsm) && exists j: nat :: Has(slots, j, fsm) && !slots[j].onStack
    ensures !slots[i].onStack
  {}
}
