/** Interrupt masking and dispatch on the internal interrupt controller. A 32-bit word of interrupt lines is
    the set of the lines whose bit is set. */
module Interrupts {

  import opened DispatchLog

  const EINVAL := 22

  /** (1 << p) - 1 */
  function Below(p: nat): (w: Word)
    requires p <= NIRQ
    ensures forall i: nat :: i in w <==> i < p
  {
    if p == 0 then {} else Below(p - 1) + {p - 1}
  }

  lemma NothingMasked(w: Word)
    ensures w * Below(NIRQ) == w
  {
    forall i | i in w
      ensures i in w * Below(NIRQ)
    {
      assert i < NIRQ;
    }
  }

  /** The lines of a nest of handlers, outermost first: each of higher priority than the one it interrupts. */
  ghost predicate Descending(nest: seq<nat>) {
    forall i, j :: 0 <= i < j < |nest| ==> nest[i] > nest[j]
  }

  /** Such a nest is no deeper than there are lines. */
  lemma {:induction false} NestDepth(nest: seq<nat>, bound: nat)
    requires Descending(nest) && (nest != [] ==> nest[0] < bound)
    ensures |nest| <= bound
  {
    if nest != [] {
      NestDepth(nest[1..], nest[0]);
    }
  }

  datatype Setup = Setup(table: seq<Option<Handler>>, active: Word, mask: Word, nest: seq<nat>)

  class Cpu {
    var pie: bool            // the interrupt enable bit of the status register
    var ienable: Word
    var active: Word         // alt_irq_active
    var mask: Word           // alt_priority_mask
    const table: array<Option<Handler>>
    const requests: Requests
    const quiet: nat         // no line asks from this read on
    var polls: nat           // how often the pending register has been read

    ghost var shown: seq<Word>  // what each read showed
    ghost var nest: seq<nat>    // the lines of the handlers running, outermost first
    ghost var calls: seq<Call>  // the handlers called so far
    ghost var deepest: nat      // the deepest nest there has been

    /** The controller exposes the enabled lines the mask lets through, and each has a handler. */
    ghost predicate Valid()
      reads this, table
    {
      && table.Length == NIRQ && ienable == active * mask
      && (forall i :: i in active ==> table[i].Some?)
      && (forall n :: quiet <= n ==> requests(n) == {}) && |shown| == polls
      && Descending(nest) && (nest != [] ==> nest[0] < NIRQ) && |nest| <= deepest <= NIRQ
    }

    /** Only lines of higher priority than every running handler can come through. */
    ghost predicate Level(limit: nat)
      reads this
    {
      limit <= NIRQ && mask == Below(limit) && (nest != [] ==> limit <= nest[|nest| - 1])
    }

    constructor (asking: Requests, last: nat)
      requires forall n :: last <= n ==> asking(n) == {}
      ensures requests == asking && quiet == last && polls == 0
      ensures Valid() && Level(NIRQ) && nest == [] && calls == [] && pie && active == {}
    {
      table := new Option<Handler>[NIRQ](_ => None);
      pie, ienable, active, mask := true, {}, {}, Below(NIRQ);
      nest, calls, deepest, shown := [], [], 0, [];
      requests, quiet, polls := asking, last, 0;
    }

    // ----- critical sections and single lines -------------------------------------------------

    method DisableAll() returns (context: bool)
      modifies this`pie
      ensures context == old(pie) && !pie
    {
      context := pie;
      pie := false;
    }

    method EnableAll(context: bool)
      modifies this`pie
      ensures pie == context
    {
      pie := context;
    }

    /** Critical sections nested to any depth leave interrupts as they found them, and off inside. */
    method Critical(depth: nat)
      modifies this`pie
      ensures pie == old(pie)
      decreases depth
    {
      var context := DisableAll();
      if depth > 0 {
        Critical(depth - 1);
      }
      assert !pie;
      EnableAll(context);
    }

    method Enable(id: nat)
      requires id < NIRQ
      modifies this`active, this`ienable, this`pie
      ensures active == old(active) + {id} && ienable == active && pie == old(pie)
    {
      var status := DisableAll();
      active := active + {id};
      ienable := active;
      EnableAll(status);
    }

    method Disable(id: nat)
      requires id < NIRQ
      modifies this`active, this`ienable, this`pie
      ensures active == old(active) - {id} && ienable == active && pie == old(pie)
    {
      var status := DisableAll();
      active := active - {id};
      ienable := active;
      EnableAll(status);
    }

    /** alt_iic_isr_register: a line is enabled exactly when it gets a handler. The controller is given all
        enabled lines, whatever the mask, so that under a narrowed mask masking survives exactly if the mask
        lets all enabled lines through. */
    method Register(irq: nat, isr: Option<Handler>) returns (rc: int)
      requires Valid() && irq < 0x8000_0000
      modifies this`active, this`ienable, this`pie, table
      ensures Valid() <==> irq >= NIRQ || active <= mask
      ensures pie == old(pie) && ienable == if irq < NIRQ then active else old(ienable)
      ensures old(Level(NIRQ)) ==> Valid() && Level(NIRQ)
      ensures rc == if irq < NIRQ then 0 else -EINVAL
      ensures irq < NIRQ ==>
                && table[..] == old(table[..])[irq := isr]
                && active == if isr.Some? then old(active) + {irq} else old(active) - {irq}
      ensures irq >= NIRQ ==> table[..] == old(table[..]) && active == old(active)
    {
      if irq >= NIRQ { return -EINVAL; }
      var status := DisableAll();
      table[irq] := isr;
      if isr.Some? {
        Enable(irq);
      } else {
        Disable(irq);
      }
      NothingMasked(active);
      LetThrough(active, mask);
      rc := 0;
      EnableAll(status);
    }

    // ----- nesting ----------------------------------------------------------------------------

    /** alt_irq_interruptible. */
    method Interruptible(priority: nat) returns (before: Word)
      requires priority < NIRQ
      modifies this`mask, this`ienable, this`pie
      ensures before == old(mask) && mask == Below(priority) && ienable == active * mask && pie
    {
      before := mask;
      mask := Below(priority);
      ienable := active * mask;
      pie := true;
    }

    /** alt_irq_non_interruptible. */
    method NonInterruptible(before: Word)
      modifies this`mask, this`ienable, this`pie
      ensures mask == before && ienable == active * mask && !pie
    {
      pie := false;
      mask := before;
      ienable := mask * active;
    }

    /** The bit scan of the dispatcher: it ends within the word and finds the lowest pending line. */
    method LowestPending(pending: Word) returns (i: nat)
      requires pending != {}
      ensures i in pending && forall j :: j in pending ==> i <= j
    {
      ghost var some :| some in pending;
      i := 0;
      while i !in pending
        invariant i <= some && forall j :: j in pending ==> i <= j
        decreases some - i
      {
        i := i + 1;
      }
    }

    /** What interrupts leave alone. */
    ghost function Settings(): Setup
      reads this, table
    {
      Setup(table[..], active, mask, nest)
    }

    /** The pending register shows the enabled lines that ask. */
    function Shown(poll: nat): Word
      reads this`ienable
    {
      ienable * requests(poll)
    }

    method ReadPending() returns (pending: Word)
      requires |shown| == polls
      modifies this`polls, this`shown
      ensures polls == old(polls) + 1 && pending == Shown(old(polls)) && shown == old(shown) + [pending]
      ensures pending == Shown(polls - 1) == shown[polls - 1]
    {
      pending := Shown(polls);
      polls, shown := polls + 1, shown + [pending];
    }

    /** What a dispatch or a handler leaves: the settings as they were, interrupts off, and only lawful calls
        made since there were `calls0`, on lines below `limit`, after reads from number `from` to `to`. */
    ghost predicate Unwound(settings: Setup, calls0: seq<Call>, limit: nat, from: nat, to: nat)
      reads this, table
    {
      && Valid() && !pie && Settings() == settings
      && Lawfully(calls0, calls, requests, active, table[..], limit, shown, from, to)
    }

    /** The handler of a line that was read as pending: it may let lines of higher priority interrupt it, for as
        many interrupts as come. */
    method RunHandler(i: nat, handler: Handler, ghost limit: nat)
      requires Valid() && Level(limit) && !pie && i in ienable && polls > 0
      modifies this
      ensures old(shown) <= shown
      ensures polls >= old(polls)
      ensures Unwound(old(Settings()), old(calls) + [Call(old(polls) - 1, i, handler)], i, old(polls), polls)
      decreases i, 2
    {
      ghost var outer := nest;
      nest, calls := nest + [i], calls + [Call(polls - 1, i, handler)];
      NestDepth(nest, NIRQ);
      deepest := if |nest| > deepest then |nest| else deepest;
      LawfulNone(calls, requests, active, table[..], i, shown, polls);
      var letIn: bool := *;
      if letIn {
        LetIn(i);
      }
      nest := outer;
    }

    /** Between alt_irq_interruptible and its match, any number of interrupts. */
    method LetIn(i: nat)
      requires Valid() && !pie && i < NIRQ && nest != [] && nest[|nest| - 1] == i
      modifies this
      ensures old(shown) <= shown
      ensures polls >= old(polls) && Unwound(old(Settings()), old(calls), i, old(polls), polls)
      decreases i, 1
    {
      ghost var calls0, from := calls, polls;
      LawfulNone(calls, requests, active, table[..], i, shown, polls);
      var before := Interruptible(i);
      ghost var inside := Settings();
      var interrupts :| 0 <= interrupts;
      for k := 0 to interrupts
        invariant Valid() && Level(i) && pie && Settings() == inside && old(shown) <= shown
        invariant from <= polls && Lawfully(calls0, calls, requests, active, table[..], i, shown, from, polls)
      {
        ghost var calls1, shown1 := calls, shown;
        TakeInterrupt(i);
        LawfulMore(calls0, calls1, calls, requests, active, table[..], i, shown1, shown, from, |shown1|, polls);
      }
      NonInterruptible(before);
    }

    /** An interrupt, if a line that is let through asks for one: the processor turns interrupts off, the
        dispatcher runs, and the return from the exception turns them on again. */
    method TakeInterrupt(ghost limit: nat)
      requires Valid() && Level(limit) && pie
      modifies this
      ensures Valid() && Level(limit) && pie && Settings() == old(Settings()) && old(polls) <= polls
      ensures old(shown) <= shown
      ensures Lawfully(old(calls), calls, requests, active, table[..], limit, shown, old(polls), polls)
      ensures if old(Shown(polls)) == {} then calls == old(calls)
              else |old(calls)| < |calls| && calls[|old(calls)|].read == old(polls) < polls && Shown(polls - 1) == {}
                   && shown[old(polls)] == old(Shown(polls))
      decreases limit, 1, 0
    {
      LawfulNone(calls, requests, active, table[..], limit, shown, polls);
      if Shown(polls) != {} {
        pie := false;
        Dispatch(limit);
        pie := true;
      }
    }

    /** alt_irq_handler, entered with at least one line pending. Every round calls the handler of the lowest
        pending line, and it ends only when a read shows none. */
    method Dispatch(ghost limit: nat)
      requires Valid() && Level(limit) && !pie && Shown(polls) != {}
      modifies this
      ensures Unwound(old(Settings()), old(calls), limit, old(polls), polls) && old(polls) < polls
      ensures shown[old(polls)] == old(Shown(polls))
      ensures |old(calls)| < |calls| && calls[|old(calls)|].read == old(polls)
      ensures old(shown) <= shown
      ensures Shown(polls - 1) == shown[polls - 1] == {}
      decreases limit, 0, 3
    {
      ghost var settings, calls0, from := Settings(), calls, polls;
      var pending := ReadPending();
      pending := Round(pending, limit);
      Rounds(pending, limit, settings, calls0, from);
    }

    /** The further rounds. */
    method Rounds(first: Word, ghost limit: nat, ghost settings: Setup, ghost calls0: seq<Call>, ghost from: nat)
      requires from < polls && Level(limit) && Unwound(settings, calls0, limit, from, polls - 1)
      requires first == Shown(polls - 1) == shown[polls - 1]
      modifies this
      ensures from < polls && Unwound(settings, calls0, limit, from, polls) && old(calls) <= calls
      ensures old(shown) <= shown
      ensures Shown(polls - 1) == shown[polls - 1] == {}
      decreases limit, 0, 2
    {
      var pending := first;
      while pending != {}
        invariant from < polls && Level(limit) && Unwound(settings, calls0, limit, from, polls - 1)
        invariant pending == Shown(polls - 1) == shown[polls - 1] && old(calls) <= calls && old(shown) <= shown
        decreases if quiet > polls then quiet - polls else 0, pending != {}
      {
        pending := NextRound(pending, limit, settings, calls0, from);
      }
      AllAnswered(settings, calls0, limit, from);
    }

    lemma AllAnswered(settings: Setup, calls0: seq<Call>, limit: nat, from: nat)
      requires 0 < polls && Unwound(settings, calls0, limit, from, polls - 1) && shown[polls - 1] == {}
      ensures Unwound(settings, calls0, limit, from, polls)
    {
      LawfulEnd(calls, requests, active, table[..], limit, shown, polls - 1);
      LawfulMore(calls0, calls, calls, requests, active, table[..], limit, shown, shown, from, polls - 1, polls);
    }

    method NextRound(pending: Word, ghost limit: nat, ghost settings: Setup, ghost calls0: seq<Call>,
                     ghost from: nat)
      returns (pending': Word)
      requires from < polls && Unwound(settings, calls0, limit, from, polls - 1) && Level(limit)
      requires pending != {} && pending == Shown(polls - 1) == shown[polls - 1]
      modifies this
      ensures polls > old(polls) && Level(limit) && Unwound(settings, calls0, limit, from, polls - 1)
      ensures old(shown) <= shown
      ensures old(calls) <= calls
      ensures pending' == Shown(polls - 1) == shown[polls - 1]
      decreases limit, 0, 1
    {
      ghost var calls1, shown1 := calls, shown;
      pending' := Round(pending, limit);
      LawfulMore(calls0, calls1, calls, requests, active, table[..], limit, shown1, shown, from, |shown1| - 1,
                 polls - 1);
    }

    /** One round: the lowest pending line is looked up, its handler called, and the register read again. */
    method Round(pending: Word, ghost limit: nat) returns (pending': Word)
      requires Valid() && Level(limit) && !pie && pending != {}
      requires polls > 0 && pending == Shown(polls - 1) == shown[polls - 1]
      modifies this
      ensures polls > old(polls) && Level(limit)
      ensures Unwound(old(Settings()), old(calls), limit, old(polls) - 1, polls - 1)
      ensures |old(calls)| < |calls| && calls[|old(calls)|].read == old(polls) - 1
      ensures old(shown) <= shown
      ensures pending' == Shown(polls - 1) == shown[polls - 1]
      decreases limit, 0, 0
    {
      var i, handler := LookUp(pending, limit);
      CallHandler(i, handler, limit);
      pending' := ReadPending();
    }

    /** The line to serve, and its handler. */
    method LookUp(pending: Word, ghost limit: nat) returns (i: nat, handler: Handler)
      requires Valid() && Level(limit) && pending != {} && polls > 0 && pending == Shown(polls - 1)
      ensures i < limit && i in ienable && i in pending
      ensures Lawful(Call(polls - 1, i, handler), requests, active, table[..])
    {
      i := LowestPending(pending);
      LowestOfAll(i, pending, limit);
      handler := table[i].value;
    }

    /** The call of the handler, as part of a round. */
    method CallHandler(i: nat, handler: Handler, ghost limit: nat)
      requires Valid() && Level(limit) && !pie && i in ienable && i < limit && polls > 0
      requires Lawful(Call(polls - 1, i, handler), requests, active, table[..]) && i in shown[polls - 1]
      modifies this
      ensures old(shown) <= shown
      ensures polls >= old(polls) && Level(limit)
      ensures Unwound(old(Settings()), old(calls), limit, old(polls) - 1, polls)
      ensures |old(calls)| < |calls| && calls[|old(calls)|].read == old(polls) - 1
      decreases i, 3
    {
      ghost var calls0, call := calls, Call(polls - 1, i, handler);
      RunHandler(i, handler, limit);
      LawfulCall(calls0, call, calls, requests, active, table[..], limit, shown, polls);
    }

    lemma LowestOfAll(i: nat, pending: Word, limit: nat)
      requires Valid() && Level(limit) && polls > 0 && pending == Shown(polls - 1)
      requires i in pending && forall j :: j in pending ==> i <= j
      ensures i < limit && i in ienable && Lawful(Call(polls - 1, i, table[i].value), requests, active, table[..])
    {
      var asking := requests(polls - 1);
      forall j | j in active && j in asking
        ensures i <= j
      {
        if j < limit {
          assert j in pending;
        }
      }
    }

    ghost function Now(): Moment
      reads this, table
    {
      Moment(table[..], active, calls, shown)
    }
  }

  // ----- whole runs ---------------------------------------------------------------------------

  datatype Op = RegisterOp(irq: nat, isr: Option<Handler>) | CriticalOp(depth: nat) | InterruptOp

  datatype Moment = Moment(table: seq<Option<Handler>>, active: Word, calls: seq<Call>, shown: seq<Word>)

  /** What an operation leads to: a registration replaces one handler and enables or disables its line, a
      critical section changes nothing, and an interrupt makes lawful calls only: none if no enabled line asks,
      and otherwise the first at once and further ones until no enabled line asks any more. */
  ghost predicate Step(requests: Requests, op: Op, a: Moment, b: Moment) {
    match op
    case RegisterOp(irq, isr) =>
      b == if irq < NIRQ && irq < |a.table| then
             a.(table := a.table[irq := isr],
                active := if isr.Some? then a.active + {irq} else a.active - {irq})
           else a
    case CriticalOp(_) => b == a
    case InterruptOp =>
      && b.table == a.table && b.active == a.active && a.shown <= b.shown
      && Lawfully(a.calls, b.calls, requests, b.active, b.table, NIRQ, b.shown, |a.shown|, |b.shown|)
      && if a.active * requests(|a.shown|) == {} then b.calls == a.calls
         else
           && |a.calls| < |b.calls| && b.calls[|a.calls|].read == |a.shown| < |b.shown|
           && b.shown[|a.shown|] == b.active * requests(|a.shown|)
           && b.active * requests(|b.shown| - 1) == {}
  }

  method Perform(cpu: Cpu, op: Op)
    requires cpu.Valid() && cpu.Level(NIRQ) && cpu.nest == [] && cpu.pie
    requires op.RegisterOp? ==> op.irq < 0x8000_0000
    modifies cpu, cpu.table
    ensures cpu.Valid() && cpu.Level(NIRQ) && cpu.nest == [] && cpu.pie
    ensures Step(cpu.requests, op, old(cpu.Now()), cpu.Now())
  {
    match op {
      case RegisterOp(irq, isr) =>
        var rc := cpu.Register(irq, isr);
      case CriticalOp(depth) =>
        cpu.Critical(depth);
      case InterruptOp =>
        PerformInterrupt(cpu);
    }
  }

  method PerformInterrupt(cpu: Cpu)
    requires cpu.Valid() && cpu.Level(NIRQ) && cpu.nest == [] && cpu.pie
    modifies cpu
    ensures cpu.Valid() && cpu.Level(NIRQ) && cpu.nest == [] && cpu.pie
    ensures Step(cpu.requests, InterruptOp, old(cpu.Now()), cpu.Now())
  {
    NothingMasked(cpu.active);
    cpu.TakeInterrupt(NIRQ);
  }

  /** A whole run outside handlers: any registrations, critical sections and interrupts, in any order. Every line
      the controller exposes keeps having a handler, interrupts stay on, and every call made by an interrupt goes
      to the handler that is registered then for the lowest line that asks. */
  method Run(cpu: Cpu, ops: seq<Op>) returns (ghost moments: seq<Moment>)
    requires cpu.Valid() && cpu.Level(NIRQ) && cpu.nest == [] && cpu.pie
    requires forall i :: 0 <= i < |ops| && ops[i].RegisterOp? ==> ops[i].irq < 0x8000_0000
    modifies cpu, cpu.table
    ensures cpu.Valid() && cpu.Level(NIRQ) && cpu.nest == [] && cpu.pie
    ensures cpu.ienable == cpu.active && forall i :: i in cpu.ienable ==> cpu.table[i].Some?
    ensures |moments| == |ops| + 1 && moments[0] == old(cpu.Now()) && moments[|ops|] == cpu.Now()
    ensures forall i :: 0 <= i < |ops| ==> Step(cpu.requests, ops[i], moments[i], moments[i + 1])
  {
    moments := [cpu.Now()];
    for n := 0 to |ops|
      invariant cpu.Valid() && cpu.Level(NIRQ) && cpu.nest == [] && cpu.pie
      invariant |moments| == n + 1 && moments[0] == old(cpu.Now()) && moments[n] == cpu.Now()
      invariant forall i :: 0 <= i < n ==> Step(cpu.requests, ops[i], moments[i], moments[i + 1])
    {
      Perform(cpu, ops[n]);
      moments := moments + [cpu.Now()];
    }
    NothingMasked(cpu.active);
  }
}
