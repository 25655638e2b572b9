/** The registered alarms: an intrusive, circular, doubly linked list that alt_tick walks while callbacks
    take alarms out and put new ones in. */
module AlarmList {
  import opened TickClock
  import opened AlarmBook
  import opened AlarmWalk

  const EINVAL := 22
  const ENOTSUP := 134

  ghost function Given(alarm: Entry?): set<Entry> {
    if alarm == null then {} else {alarm}
  }

  /** The four assignments of alt_llist_remove. */
  method Unlink(entry: Entry)
    requires entry.next != null && entry.previous != null
    modifies entry`next, entry`previous, entry.next`previous, entry.previous`next
    ensures entry.next == entry && entry.previous == entry
    ensures old(entry.next) != entry ==> old(entry.next).previous == old(entry.previous)
    ensures old(entry.previous) != entry ==> old(entry.previous).next == old(entry.next)
  {
    entry.next.previous := entry.previous;
    entry.previous.next := entry.next;
    entry.previous := entry;
    entry.next := entry;
  }

  /** The four assignments of alt_llist_insert, whatever the entry's links are. */
  method Link(list: Entry, entry: Entry)
    requires list.next != null && list != entry
    modifies list`next, list.next`previous, entry`next, entry`previous
    ensures list.next == entry && entry.next == old(list.next) && entry.next.previous == entry
    ensures old(list.next) != entry ==> entry.previous == list
  {
    entry.previous := list;
    entry.next := list.next;
    list.next.previous := entry;
    list.next := entry;
  }

  class Alarms {
    const head: Entry
    const nodes: set<Entry>   // every alarm structure of the program, and the list head
    const program: Program    // the callbacks
    var nticks: U32
    var tickRate: U32         // zero while there is no system clock

    ghost var chain: seq<Entry>    // the registered alarms, in list order

    // history, which only the callbacks may look at
    var ticks: nat            // the tick count without wrap-around
    var log: Log              // the callbacks made

    /** The node at place `i` of the circle; the head is at both ends. */
    ghost function At(i: nat): Entry
      requires i <= |chain| + 1
      reads this`chain
    {
      if i == 0 || i == |chain| + 1 then head else chain[i - 1]
    }

    ghost predicate Linked()
      reads this`chain, nodes`next, nodes`previous
    {
      && head in nodes && head !in chain && Distinct(chain)
      && (forall i :: 0 <= i < |chain| ==> chain[i] in nodes)
      && (forall i: nat {:trigger At(i).next} :: i <= |chain| ==> At(i).next == At(i + 1))
      && (forall i: nat {:trigger At(i).previous} :: 1 <= i <= |chain| + 1 ==> At(i).previous == At(i - 1))
      && (forall e :: e in nodes && e != head && e !in chain ==>
            (e.next == null && e.previous == null) || (e.next == e && e.previous == e))
    }

    ghost predicate Valid()
      reads this, nodes
    {
      Linked() && nticks == ticks % WRAP
    }

    ghost function Report(e: Entry): Status
      reads this`log, e`time, e`rollover, e`book
    {
      Status(e.Deadline(), e.book, CallsTo(log, e))
    }

    ghost function Reports(): (m: map<Entry, Status>)
      reads this`log, nodes
    {
      map e | e in nodes && e != head :: Report(e)
    }

    ghost function Now(): Moment
      reads this, nodes
    {
      Moment(ticks, tickRate, chain, log, Reports())
    }

    lemma ReportsAre(m: map<Entry, Status>, alarm: Entry, s: Status)
      requires m.Keys == nodes - {head} && alarm in m && Report(alarm) == s
      requires forall e :: e in nodes && e != head && e != alarm ==> Report(e) == m[e]
      ensures Reports() == m[alarm := s]
    {
    }

    lemma NowProper()
      requires Linked()
      ensures Proper(Now()) && Now().status.Keys == nodes - {head}
    {
    }

    /** Start-up: an empty list, no clock, and alarm structures that were never registered. */
    constructor (alarms: set<Entry>, callbacks: Program)
      requires forall e :: e in alarms ==> e.next == null && e.previous == null && e.book == NeverStarted
      ensures Valid() && chain == [] && log == Empty && ticks == 0 && tickRate == 0
      ensures fresh(head) && nodes == alarms + {head} && program == callbacks
      ensures OnPromise(program, Now())
    {
      var h := new Entry();
      head, nodes, program, nticks, tickRate := h, alarms + {h}, callbacks, 0, 0;
      ticks, chain, log := 0, [], Empty;
      new;
      head.next, head.previous := head, head;
      forall e | e in nodes && e != head
        ensures Kept(Report(e), ticks, AnswersOf(program, e), false)
      {
        NeverKept(Report(e), ticks, AnswersOf(program, e));
      }
    }

    /** alt_sysclk_init: the first clock to register is the system clock. */
    method RegisterClock(rate: U32) returns (rc: int)
      requires Valid()
      modifies this`tickRate
      ensures Valid() && rc == if old(tickRate) == 0 then 0 else -1
      ensures Step(program, ClockOp(rate), old(Now()), Now())
    {
      if tickRate != 0 { return -1; }
      tickRate := rate;
      return 0;
    }

    /** alt_llist_insert at the list head. */
    method Insert(entry: Entry)
      requires Linked() && entry in nodes && entry != head && entry !in chain
      modifies this`chain, nodes`next, nodes`previous
      ensures Linked() && chain == [entry] + old(chain)
      ensures forall e :: e in nodes && e !in chain && e != head ==> e.next == old(e.next)
    {
      assert At(0).next == At(1) && At(1).previous == At(0);
      ghost var first := At(1);
      Link(head, entry);
      chain := [entry] + chain;
      assert At(2) == first;
      forall i: nat | i <= |chain|
        ensures At(i).next == At(i + 1) && At(i + 1).previous == At(i)
      {
        if i > 1 {
          assert At(i) == old(At(i - 1)) && At(i + 1) == old(At(i));
          assert old(At(i - 1).next == At(i) && At(i).previous == At(i - 1));
        }
      }
    }

    /** alt_llist_remove of the entry at place `k`. Removing an entry that is not in the list, because it
        was removed before, is harmless. */
    method Remove(entry: Entry, ghost k: nat)
      requires Linked() && entry in nodes && entry != head && k <= |chain|
      requires if k < |chain| then chain[k] == entry else entry !in chain && entry.next == entry
      modifies this`chain, nodes`next, nodes`previous
      ensures Linked() && entry !in chain && entry.next == entry
      ensures chain == if k < |old(chain)| then old(chain)[..k] + old(chain)[k + 1..] else old(chain)
    {
      if k < |chain| {
        assert entry == At(k + 1);
        assert At(k).next == At(k + 1) && At(k + 1).previous == At(k);
        assert At(k + 1).next == At(k + 2) && At(k + 2).previous == At(k + 1);
      }
      Unlink(entry);
      if k < |chain| {
        chain := chain[..k] + chain[k + 1..];
        assert Distinct(chain) && entry !in chain && head !in chain;
        forall i: nat | i <= |chain|
          ensures At(i).next == At(i + 1) && At(i + 1).previous == At(i)
        {
          if i < k {
            assert At(i) == old(At(i)) && At(i + 1) == old(At(i + 1));
            assert old(At(i).next == At(i + 1) && At(i + 1).previous == At(i));
          } else if i > k {
            assert At(i) == old(At(i + 1)) && At(i + 1) == old(At(i + 2));
            assert old(At(i + 1).next == At(i + 2) && At(i + 2).previous == At(i + 1));
          } else {
            assert At(i) == old(At(i)) && At(i + 1) == old(At(i + 2));
          }
        }
      }
    }

    /** A registered alarm is linked to another node, one that is not registered never is. */
    lemma RegisteredIsLinked(e: Entry)
      requires Linked() && e in chain
      ensures e.next != null && e.next != e
    {
      var k :| 0 <= k < |chain| && chain[k] == e;
      assert At(k + 1).next == At(k + 2);
    }

    lemma NotLinked(e: Entry)
      requires Linked() && (e.next == null || e.next == e)
      ensures e !in chain
    {
      if e in chain {
        RegisteredIsLinked(e);
      }
    }

    /** Starting an alarm that is registered, at place `k`, leaves a circle without the head: a walk from the head
        enters it at once and never comes back. */
    method LinkedTwice(entry: Entry, ghost k: nat) returns (ghost circle: seq<Entry>)
      requires Linked() && k < |chain| && chain[k] == entry
      modifies nodes`next, nodes`previous
      ensures circle == [entry] + chain[..k] && head !in circle && head.next == circle[0]
      ensures forall i :: 0 <= i < |circle| ==> circle[i].next == circle[if i < k then i + 1 else 0]
    {
      circle := [entry] + chain[..k];
      assert At(0).next == At(1);
      forall i: nat | i < k
        ensures chain[i].next == chain[i + 1]
      {
        assert At(i + 1).next == At(i + 2);
      }
      Link(head, entry);
    }

    lemma Unstarted(e: Entry)
      requires Linked() && (e !in nodes || e == head || e.next == null)
      ensures e !in chain
    {
      if e in chain {
        RegisteredIsLinked(e);
      }
    }

    /** alt_alarm_stop. */
    method Stop(alarm: Entry, ghost before: seq<Entry>, ghost after: seq<Entry>)
      requires Linked() && alarm in nodes && alarm != head
      requires chain == before + [alarm] + after
            || (chain == before + after && alarm !in chain && alarm.next == alarm)
      modifies this`chain, nodes`next, nodes`previous, alarm`book
      ensures Linked() && chain == before + after && alarm !in chain && alarm.next == alarm
      ensures Reports() == old(Reports())[alarm := if alarm in old(chain) then Stopped(old(Report(alarm)), ticks)
                                                   else old(Report(alarm))]
    {
      ghost var now := Reports();
      ghost var stopped := if alarm in chain then Stopped(now[alarm], ticks) else now[alarm];
      ghost var k := if alarm in chain then |before| else |chain|;
      assert alarm in chain ==> chain[..k] == before && chain[k + 1..] == after;
      if alarm in chain {
        alarm.book := alarm.book.(until := ticks);
      }
      Remove(alarm, k);
      ReportsAre(now, alarm, stopped);
    }

    method SetDeadline(alarm: Entry, delay: U32)
      requires nticks == ticks % WRAP
      modifies alarm`time, alarm`rollover, alarm`book
      ensures Report(alarm) == Started(old(Report(alarm)), ticks, delay)
    {
      var current := nticks;
      alarm.time := (delay + current + 1) % WRAP;
      if alarm.time < current {
        alarm.rollover := true;
      } else {
        alarm.rollover := false;
      }
      alarm.book := Book(CallsTo(log, alarm), ticks, delay, 0, ticks);
    }

    /** alt_alarm_start. It fails without a system clock or an alarm; otherwise the alarm is registered, in
        front of the list, with the delay asked for. */
    method StartAlarm(alarm: Entry?, delay: U32) returns (rc: int)
      requires Valid() && (alarm != null ==> alarm in nodes && alarm != head && alarm !in chain)
      modifies this`chain, nodes`next, nodes`previous
      modifies Given(alarm)`time, Given(alarm)`rollover, Given(alarm)`book
      ensures Valid()
      ensures rc == if tickRate == 0 then -ENOTSUP else if alarm == null then -EINVAL else 0
      ensures chain == if rc == 0 then [alarm] + old(chain) else old(chain)
      ensures rc != 0 ==> Reports() == old(Reports())
      ensures rc == 0 ==> Reports() == old(Reports())[alarm := Started(old(Report(alarm)), ticks, delay)]
      ensures forall e :: e in nodes && e !in chain && e != head ==> e.next == old(e.next)
    {
      if tickRate == 0 { return -ENOTSUP; }
      if alarm == null { return -EINVAL; }
      ghost var now := Reports();
      SetDeadline(alarm, delay);
      Insert(alarm);
      ReportsAre(now, alarm, Started(now[alarm], ticks, delay));
      return 0;
    }

    // ----- a callback -------------------------------------------------------------------------

    /** A callback of `alarm` has done the actions `done`. */
    ghost predicate InCallback(was: map<Entry, Status>, alarm: Entry, done: seq<Action>, front: seq<Entry>,
                               before: seq<Entry>, after: seq<Entry>)
      reads this, nodes, alarm
    {
      && Valid() && alarm in nodes && alarm != head && (alarm !in chain ==> alarm.next == alarm)
      && Acting(was, Reports(), chain, alarm, done, front, before, after, ticks, tickRate > 0)
    }

    /** The callback stops its own alarm, wherever that is. */
    method StopOwnAlarm(ghost was: map<Entry, Status>, alarm: Entry, ghost done: seq<Action>,
                        ghost front: seq<Entry>, ghost before: seq<Entry>, ghost after: seq<Entry>)
      returns (ghost front': seq<Entry>)
      requires InCallback(was, alarm, done, front, before, after)
      modifies this`chain, nodes`next, nodes`previous, nodes`book
      ensures InCallback(was, alarm, done + [StopOwn], front', before, after) && alarm !in chain
    {
      ghost var now, chain0, b, a := Reports(), chain, [], [];
      front', b, a := OwnPlace(was, now, chain, alarm, done, front, before, after, ticks, tickRate > 0);
      Stop(alarm, b, a);
      assert forall e :: e in chain0 && e != alarm ==> e in chain;
      ActingStopped(was, now, Report(alarm), chain0, chain, alarm, done, front, front', before, after, ticks,
                    tickRate > 0);
    }

    /** The callback starts an alarm that is not registered, perhaps its own. */
    method StartOther(ghost was: map<Entry, Status>, alarm: Entry, ghost done: seq<Action>,
                      ghost front: seq<Entry>, ghost before: seq<Entry>, ghost after: seq<Entry>, other: Entry,
                      delay: U32)
      returns (ghost front': seq<Entry>)
      requires InCallback(was, alarm, done, front, before, after)
      requires other in nodes && other != head && other !in chain
      modifies this`chain, nodes`next, nodes`previous, nodes`time, nodes`rollover, nodes`book
      ensures InCallback(was, alarm, done + [Start(other, delay)], front', before, after)
    {
      ghost var now, chain0 := Reports(), chain;
      var rc := StartAlarm(other, delay);
      front' := if rc == 0 then [other] + front else front;
      if rc == 0 {
        ActingStarted(was, now, Reports(), chain0, alarm, done, front, before, after, ticks, other, delay);
      } else {
        ActingIdle(was, now, chain0, alarm, done, front, before, after, ticks, false, other, delay);
      }
    }

    /** The actions of a callback, one after the other. */
    method CallbackActions(ghost was: map<Entry, Status>, alarm: Entry, actions: seq<Action>,
                           ghost before: seq<Entry>, ghost after: seq<Entry>)
      returns (ghost front: seq<Entry>)
      requires InCallback(was, alarm, [], [], before, after)
      modifies this`chain, nodes`next, nodes`previous, nodes`time, nodes`rollover, nodes`book
      ensures InCallback(was, alarm, actions, front, before, after)
    {
      front := [];
      for i := 0 to |actions|
        invariant InCallback(was, alarm, actions[..i], front, before, after)
      {
        assert actions[..i + 1] == actions[..i] + [actions[i]];
        match actions[i] {
          case StopOwn =>
            front := StopOwnAlarm(was, alarm, actions[..i], front, before, after);
          case Start(other, delay) =>
            if other in nodes && other != head && (other.next == null || other.next == other) {
              NotLinked(other);
              front := StartOther(was, alarm, actions[..i], front, before, after, other, delay);
            } else {
              ActingIdle(was, Reports(), chain, alarm, actions[..i], front, before, after, ticks, tickRate > 0, other,
                         delay);
            }
        }
      }
      assert actions[..|actions|] == actions;
    }

    /** A callback of `alarm` begins. */
    method Begin(ghost was: map<Entry, Status>, alarm: Entry)
      requires alarm in nodes && alarm != head && was == Reports()[alarm := CalledAt(Report(alarm), ticks)]
      modifies this`log
      ensures log == Called(old(log), alarm, ticks) && Reports() == was
    {
      ghost var now := Reports();
      forall e
        ensures CallsTo(Called(log, alarm, ticks), e)
             == if alarm == e then CallsTo(log, e) + [ticks] else CallsTo(log, e)
      {
        CallsNext(log, e, alarm, ticks);
      }
      log := Called(log, alarm, ticks);
      ReportsAre(now, alarm, was[alarm]);
    }

    /** The callback of `alarm`: it does what the program says, and answers the next period, or zero to end the
        alarm. */
    method Callback(ghost was: map<Entry, Status>, alarm: Entry, ghost before: seq<Entry>, ghost after: seq<Entry>)
      returns (answer: U32, ghost front: seq<Entry>)
      requires Valid() && alarm in nodes && alarm != head && chain == before + [alarm] + after
      requires was == Reports()[alarm := CalledAt(Report(alarm), ticks)]
      modifies this`chain, this`log, nodes`next, nodes`previous, nodes`time, nodes`rollover, nodes`book
      ensures var conduct := Next(program, alarm, old(Report(alarm)));
              answer == conduct.answer && InCallback(was, alarm, conduct.actions, front, before, after)
      ensures log == Called(old(log), alarm, ticks)
    {
      var conduct := program(alarm, |CallsTo(log, alarm)|);
      Begin(was, alarm);
      ActingFirst(was, chain, alarm, before, after, ticks, tickRate > 0);
      front := CallbackActions(was, alarm, conduct.actions, before, after);
      answer := conduct.answer;
    }

    /** `alarm->time += period`, with the flag. */
    method PutOff(alarm: Entry, period: U32, ghost started: bool)
      requires Valid() && alarm in nodes
      modifies alarm`time, alarm`rollover, alarm`book
      ensures Valid() && alarm.Deadline() == Renewed(old(alarm.Deadline()), ticks % WRAP, period)
      ensures alarm.book == if started then old(alarm.book).(extra := period) else old(alarm.book)
    {
      alarm.time := (alarm.time + period) % WRAP;
      if alarm.time < nticks {
        alarm.rollover := true;
      }
      if started {
        alarm.book := alarm.book.(extra := period);
      }
    }

    /** An expired alarm: its callback runs, then it is stopped or put off by the answer, wherever it is. */
    method Fire(alarm: Entry, ghost before: seq<Entry>, ghost after: seq<Entry>)
      returns (ghost started: seq<Entry>, ghost self: seq<Entry>)
      requires Valid() && alarm in nodes && alarm != head && chain == before + [alarm] + after
      modifies this`chain, this`log, nodes`next, nodes`previous, nodes`time, nodes`rollover, nodes`book
      ensures Valid() && log == Called(old(log), alarm, ticks)
      ensures Settled(old(Reports())[alarm := CalledAt(old(Report(alarm)), ticks)], Reports(), chain, alarm,
                      Next(program, alarm, old(Report(alarm))), started, before, self, after, ticks, tickRate > 0)
    {
      ghost var was := Reports()[alarm := CalledAt(Report(alarm), ticks)];
      ghost var conduct := Next(program, alarm, Report(alarm));
      ghost var own := OwnAfter(conduct.actions, alarm, tickRate > 0);
      var period;
      period, started := Callback(was, alarm, before, after);
      if period == 0 {
        started := StopOwnAlarm(was, alarm, conduct.actions, started, before, after);
        self := [];
        SettledEnded(was, Reports(), chain, alarm, conduct, started, before, after, ticks, tickRate > 0);
      } else {
        self := Self(alarm, own);
        ghost var now := Reports();
        PutOff(alarm, period, own.Front?);
        ReportsAre(now, alarm, Report(alarm));
        SettledPutOff(was, now, Report(alarm), chain, alarm, conduct, started, before, after, ticks, tickRate > 0);
      }
    }

    // ----- the tick ---------------------------------------------------------------------------

    ghost function ClearedNow(s: Status): Status
      reads this`ticks
    {
      s.(deadline := Cleared(s.deadline, ticks % WRAP))
    }

    /** Clears the flag when the counter wraps, and tests the deadline: an alarm that was as in `s0` at tick `t`
        has expired at the next exactly when it is due then. */
    method Expires(alarm: Entry, ghost s0: Status, ghost t: nat) returns (expired: bool)
      requires Valid() && ticks == t + 1 && alarm in nodes && alarm != head && Report(alarm) == s0
      modifies alarm`rollover
      ensures Valid() && Reports() == old(Reports())[alarm := ClearedNow(s0)]
      ensures expired <==> Due(s0.deadline, t) == t + 1
    {
      ghost var was := Reports();
      TickExact(s0.deadline, t);
      if alarm.rollover && nticks == 0 {
        alarm.rollover := false;
      }
      ReportsAre(was, alarm, ClearedNow(s0));
      expired := alarm.time <= nticks && !alarm.rollover;
    }

    /** What serving one alarm, which was as in `s0`, leaves: it was served, and callbacks put `started` in
        front. */
    ghost predicate ServedOne(was: map<Entry, Status>, alarm: Entry, s0: Status, started: seq<Entry>,
                              before: seq<Entry>, self: seq<Entry>, after: seq<Entry>)
      reads this, nodes, alarm
    {
      && Valid() && ticks > 0 && chain == started + before + self + after
      && self == (if self == [] then [] else [alarm])
      && ServedBy(program, tickRate > 0, alarm, s0, Report(alarm), ticks, self != [], alarm in started)
      && Acted(program, tickRate > 0, alarm, s0, Reports(), ticks, started, chain)
      && Others(was, Reports(), alarm, started)
    }

    method FireDue(ghost was: map<Entry, Status>, alarm: Entry, ghost s0: Status, ghost before: seq<Entry>,
                   ghost after: seq<Entry>)
      returns (ghost started: seq<Entry>, ghost self: seq<Entry>)
      requires Valid() && ticks > 0 && Due(s0.deadline, ticks - 1) == ticks
      requires alarm in nodes && alarm != head && chain == before + [alarm] + after
      requires alarm in was && Reports() == was[alarm := ClearedNow(s0)]
      modifies this`chain, this`log, nodes`next, nodes`previous, nodes`time, nodes`rollover, nodes`book
      ensures ServedOne(was, alarm, s0, started, before, self, after) && log == Called(old(log), alarm, ticks)
    {
      assert Reports()[alarm] == ClearedNow(s0) && Next(program, alarm, ClearedNow(s0)) == Next(program, alarm, s0);
      ghost var called := CalledAt(ClearedNow(s0), ticks);
      assert Reports()[alarm := called] == was[alarm := called];
      started, self := Fire(alarm, before, after);
      SettledServed(program, was, Reports(), chain, alarm, s0, started, before, self, after, ticks, tickRate > 0);
    }

    /** The body of the walk for one alarm, as it was in `s0`, at tick `t + 1`: it fires exactly when it is due. */
    method Serve(alarm: Entry, ghost s0: Status, ghost t: nat, ghost before: seq<Entry>, ghost after: seq<Entry>)
      returns (ghost started: seq<Entry>, ghost self: seq<Entry>)
      requires Valid() && ticks == t + 1 && Report(alarm) == s0
      requires alarm in nodes && alarm != head && chain == before + [alarm] + after
      modifies this`chain, this`log, nodes`next, nodes`previous, nodes`time, nodes`rollover, nodes`book
      ensures ServedOne(old(Reports()), alarm, s0, started, before, self, after)
      ensures log == LoggedOne(old(log), alarm, s0.deadline, t)
    {
      ghost var was := Reports();
      var expired := Expires(alarm, s0, t);
      if expired {
        started, self := FireDue(was, alarm, s0, before, after);
      } else {
        started, self := [], [alarm];
        Regrouped([], before, [alarm], after);
        assert Reports()[alarm] == ClearedNow(s0);
        WaitedServed(program, tickRate > 0, alarm, s0, Reports()[alarm], ticks);
      }
    }

    /** In the tick that began at `a` the walk has reached `alarm`, at place `i` of the list as it was then. */
    ghost predicate Reached(alarm: Entry, a: Moment, i: nat, started: seq<Entry>, left: set<Entry>)
      reads this, nodes
    {
      && Valid() && Walked(program, a, Now(), i, started, left) && a.status.Keys == nodes - {head}
      && alarm == (if i < |a.chain| then a.chain[i] else head)
    }

    lemma LinkedTo(e: Entry, before: seq<Entry>, after: seq<Entry>)
      requires Linked() && chain == before + [e] + after
      ensures e.next == if after == [] then head else after[0]
    {
      assert At(|before| + 1) == e && At(|before| + 1).next == At(|before| + 2);
    }

    /** The alarm reached is as it was when the tick began, and is linked to the one after it then. */
    lemma ReachedHere(alarm: Entry, a: Moment, i: nat, started: seq<Entry>, left: set<Entry>)
      requires Reached(alarm, a, i, started, left) && alarm != head
      ensures i < |a.chain| && alarm == a.chain[i] && alarm in nodes && alarm in a.status
      ensures Report(alarm) == a.status[alarm]
      ensures chain == (started + Without(a.chain[..i], left)) + [alarm] + a.chain[i + 1..]
      ensures alarm.next == if i + 1 < |a.chain| then a.chain[i + 1] else head
    {
      WalkingHere(chain, a.chain, i, started, left);
      assert Now().status[a.chain[i]] == a.status[a.chain[i]];
      LinkedTo(alarm, started + Without(a.chain[..i], left), a.chain[i + 1..]);
    }

    /** The body of the loop in alt_tick; `next` is read before the callback can unlink the alarm. */
    method Visit(alarm: Entry, ghost a: Moment, ghost i: nat, ghost started: seq<Entry>, ghost left: set<Entry>)
      returns (next: Entry, ghost started': seq<Entry>, ghost left': set<Entry>)
      requires Reached(alarm, a, i, started, left) && alarm != head
      modifies this`chain, this`log, nodes
      ensures i < |a.chain| && Reached(next, a, i + 1, started', left')
    {
      ghost var before, b := started + Without(a.chain[..i], left), Now();
      ReachedHere(alarm, a, i, started, left);
      next := alarm.next;
      ghost var more, self := Serve(alarm, a.status[alarm], a.ticks, before, a.chain[i + 1..]);
      started', left' := more + started, if self == [] then left + {alarm} else left;
      NowProper();
      WalkedNext(program, a, b, Now(), i, started, left, more, self);
    }

    /** The walk is back at the head only when it has visited every alarm. */
    lemma ReachedLast(a: Moment, i: nat, started: seq<Entry>, left: set<Entry>)
      requires Reached(head, a, i, started, left)
      ensures i == |a.chain|
    {
      if i < |a.chain| {
        WalkingHere(chain, a.chain, i, started, left);
      }
    }

    /** The loop of alt_tick: it ends at the head, after every alarm of the list as it was. */
    method Walk(first: Entry, ghost a: Moment) returns (ghost started: seq<Entry>, ghost left: set<Entry>)
      requires Reached(first, a, 0, [], {})
      modifies this`chain, this`log, nodes
      ensures Valid() && TickStep(program, a, Now(), started, left)
    {
      var alarm := first;
      ghost var i: nat := 0;
      started, left := [], {};
      while alarm != head
        invariant Reached(alarm, a, i, started, left)
        decreases |a.chain| - i
      {
        alarm, started, left := Visit(alarm, a, i, started, left);
        i := i + 1;
      }
      ReachedLast(a, i, started, left);
    }

    method First() returns (first: Entry)
      requires Linked()
      ensures first == if chain == [] then head else chain[0]
    {
      assert At(0).next == At(1);
      first := head.next;
    }

    method Advance()
      requires Valid()
      modifies this`ticks, this`nticks
      ensures Valid() && ticks == old(ticks) + 1
    {
      SumWord(ticks, 1);
      nticks, ticks := (nticks + 1) % WRAP, ticks + 1;
    }

    /** The update of the tick counter, with which the walk stands at the first alarm. */
    method Count() returns (first: Entry)
      requires Valid()
      modifies this`ticks, this`nticks
      ensures Reached(first, old(Now()), 0, [], {})
    {
      ghost var a := Now();
      NowProper();
      first := First();
      Advance();
      assert Reports() == a.status;
      WalkedFirst(program, a, Now());
    }

    /** alt_tick. It visits every alarm registered at the tick once, in list order, and ends at the head. */
    method Tick()
      requires Valid()
      modifies this`ticks, this`nticks, this`chain, this`log, nodes
      ensures Valid() && Step(program, TickOp, old(Now()), Now())
    {
      ghost var a := Now();
      var first := Count();
      ghost var started, left := Walk(first, a);
      TickedIs(program, a, Now(), started, left);
    }

    // ----- what the program does --------------------------------------------------------------

    /** alt_alarm_stop, called by the program. */
    method StopAlarm(alarm: Entry)
      requires Valid() && alarm in nodes && alarm != head && alarm.next != null
      modifies this`chain, nodes`next, nodes`previous, alarm`book
      ensures Valid() && Step(program, StopOp(alarm), old(Now()), Now())
    {
      ghost var a, before, after := Now(), chain, [];
      if alarm in chain {
        ghost var k :| 0 <= k < |chain| && chain[k] == alarm;
        before, after := chain[..k], chain[k + 1..];
        assert chain == before + [alarm] + after;
        WithoutOne(chain, k);
      } else {
        assert chain == chain + [];
      }
      Stop(alarm, before, after);
      assert alarm !in a.chain ==> Reports() == a.status;
    }

    /** alt_alarm_start, called by the program. */
    method Register(alarm: Entry?, delay: U32) returns (rc: int)
      requires Valid() && (alarm != null ==> alarm in nodes && alarm != head && alarm !in chain)
      modifies this`chain, nodes`next, nodes`previous
      modifies Given(alarm)`time, Given(alarm)`rollover, Given(alarm)`book
      ensures Valid() && Step(program, StartOp(alarm, delay), old(Now()), Now())
      ensures rc == if tickRate == 0 then -ENOTSUP else if alarm == null then -EINVAL else 0
    {
      rc := StartAlarm(alarm, delay);
    }
  }

  /** One operation of a run. Starting an alarm that is registered, and stopping one that never was, are left
      out. */
  method Perform(alarms: Alarms, op: Op)
    requires alarms.Valid()
    modifies alarms, alarms.nodes
    ensures alarms.Valid() && Step(alarms.program, op, old(alarms.Now()), alarms.Now())
  {
    match op {
      case TickOp =>
        alarms.Tick();
      case ClockOp(rate) =>
        var rc := alarms.RegisterClock(rate);
      case StopOp(alarm) =>
        if alarm in alarms.nodes && alarm != alarms.head && alarm.next != null {
          alarms.StopAlarm(alarm);
        } else {
          alarms.Unstarted(alarm);
        }
      case StartOp(alarm, delay) =>
        if alarm == null {
          var rc := alarms.Register(null, delay);
        } else if alarm in alarms.nodes && alarm != alarms.head && (alarm.next == null || alarm.next == alarm) {
          alarms.NotLinked(alarm);
          var rc := alarms.Register(alarm, delay);
        }
    }
  }

  /** Any run: ticks, and starts and stops by the program, in any order. Each operation leads from one moment to
      the next as it should; so every promise is kept at the end (`TracedKeeps`), every alarm fires when
      it was asked to (`FiresAsAsked`), and none is lost (`NoneLost`). */
  method Run(alarms: Alarms, ops: seq<Op>) returns (ghost moments: seq<Moment>)
    requires alarms.Valid()
    modifies alarms, alarms.nodes
    ensures alarms.Valid() && Traced(alarms.program, ops, moments)
    ensures moments[0] == old(alarms.Now()) && moments[|ops|] == alarms.Now()
    ensures OnPromise(alarms.program, moments[0]) ==> OnPromise(alarms.program, moments[|ops|])
  {
    moments := [alarms.Now()];
    alarms.NowProper();
    for i := 0 to |ops|
      invariant alarms.Valid() && Traced(alarms.program, ops[..i], moments)
      invariant moments[0] == old(alarms.Now()) && moments[i] == alarms.Now()
    {
      Perform(alarms, ops[i]);
      alarms.NowProper();
      TracedNext(alarms.program, ops[..i], moments, ops[i], alarms.Now());
      assert ops[..i + 1] == ops[..i] + [ops[i]];
      moments := moments + [alarms.Now()];
    }
    assert ops[..|ops|] == ops;
    if OnPromise(alarms.program, moments[0]) {
      TracedKeeps(alarms.program, ops, moments, |ops|);
    }
  }
}
