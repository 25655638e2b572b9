/** Ticks of the alarm list as steps between moments: what the walk over the list and the callbacks on the way
    make of it, and what whole runs of ticks, starts and stops come to. */
module AlarmWalk {
  import opened TickClock
  import opened AlarmBook

  /** An alarm structure, or the head of the list. */
  class Entry {
    var next: Entry?
    var previous: Entry?
    var time: U32
    var rollover: bool

    ghost var book: Book

    constructor ()
      ensures next == null && previous == null && book == NeverStarted
    {
      next, previous, time, rollover, book := null, null, 0, false, NeverStarted;
    }

    ghost function Deadline(): Deadline
      reads this`time, this`rollover
    {
      TickClock.Deadline(time, rollover)
    }
  }

  // ----- the program --------------------------------------------------------------------------

  /** What a callback may do to the list: stop its own alarm, or start one. */
  datatype Action = StopOwn | Start(alarm: Entry, delay: U32)

  /** What a callback does, one thing after the other, and what it answers: the next period, or zero. */
  datatype Conduct = Conduct(actions: seq<Action>, answer: U32)

  /** The conduct of the callbacks of each alarm, one after the other: anything at all. */
  type Program = (Entry, nat) -> Conduct

  ghost function AnswersOf(program: Program, e: Entry): Answers {
    (n: nat) => program(e, n).answer
  }

  /** What the actions make of the callback's own alarm `e`; `clock` says whether alarms can be started. */
  ghost function OwnAfter(actions: seq<Action>, e: Entry, clock: bool): Own {
    if actions == [] then InPlace
    else
      var before := OwnAfter(actions[..|actions| - 1], e, clock);
      match actions[|actions| - 1]
      case StopOwn => Out
      case Start(other, delay) => if other == e && before.Out? && clock then Front(delay) else before
  }

  lemma OwnNext(actions: seq<Action>, action: Action, e: Entry, clock: bool)
    ensures OwnAfter(actions + [action], e, clock)
         == match action
            case StopOwn => Out
            case Start(other, delay) =>
              var before := OwnAfter(actions, e, clock);
              if other == e && before.Out? && clock then Front(delay) else before
  {
    assert (actions + [action])[..|actions|] == actions;
  }

  /** The next callback of an alarm in state `s0`. */
  ghost function Next(program: Program, e: Entry, s0: Status): Conduct {
    program(e, |s0.calls|)
  }

  ghost predicate ServedBy(program: Program, clock: bool, e: Entry, s0: Status, s: Status, t: nat, stays: bool,
                           back: bool)
    requires t > 0
  {
    forall conduct | conduct == Next(program, e, s0) ::
      Served(s0, s, t, OwnAfter(conduct.actions, e, clock), conduct.answer, stays, back)
  }

  lemma ServedByIs(program: Program, clock: bool, e: Entry, s0: Status, s: Status, t: nat, stays: bool, back: bool)
    requires t > 0
    ensures ServedBy(program, clock, e, s0, s, t, stays, back) <==>
              Served(s0, s, t, OwnAfter(Next(program, e, s0).actions, e, clock), Next(program, e, s0).answer, stays,
                     back)
  {
  }

  /** An alarm that was out may have been started since. */
  lemma ServedByBack(program: Program, clock: bool, e: Entry, s0: Status, was: Status, s: Status, t: nat)
    requires t > 0 && ServedBy(program, clock, e, s0, was, t, false, false)
    requires Launched(s, t) && s.book.extra == 0 && s.calls == was.calls
    ensures ServedBy(program, clock, e, s0, s, t, false, true)
  {
    var conduct := Next(program, e, s0);
    ServedByIs(program, clock, e, s0, was, t, false, false);
    ServedBack(s0, was, s, t, OwnAfter(conduct.actions, e, clock), conduct.answer, false);
  }

  lemma ServedByKept(program: Program, clock: bool, e: Entry, s0: Status, s: Status, t: nat, stays: bool, back: bool)
    requires Kept(s0, t, AnswersOf(program, e), true)
    requires ServedBy(program, clock, e, s0, s, t + 1, stays, back)
    ensures Kept(s, t + 1, AnswersOf(program, e), stays || back)
  {
    ServedByIs(program, clock, e, s0, s, t + 1, stays, back);
    ServedKept(s0, s, t, OwnAfter(Next(program, e, s0).actions, e, clock), AnswersOf(program, e), stays, back);
  }

  /** A registered alarm whose next callback, if it was made, wants it to go on keeps its place. */
  lemma ServedByGoesOn(program: Program, clock: bool, e: Entry, s0: Status, s: Status, t: nat, stays: bool,
                       back: bool)
    requires t > 0 && ServedBy(program, clock, e, s0, s, t, stays, back)
    requires GoesOn(program, e, |s0.calls|, |s.calls|)
    ensures stays && s.book == s0.book
  {
    var conduct := Next(program, e, s0);
    ServedByIs(program, clock, e, s0, s, t, stays, back);
    if Due(s0.deadline, t - 1) == t {
      assert s.calls == s0.calls + [t];
      StaysInPlace(conduct.actions, e, clock);
    }
  }

  lemma FiredServed(program: Program, clock: bool, e: Entry, s0: Status, s: Status, t: nat, stays: bool, back: bool)
    requires t > 0 && Due(s0.deadline, t - 1) == t
    requires Fired(CalledAt(s0.(deadline := Cleared(s0.deadline, t % WRAP)), t), s, t,
                   OwnAfter(Next(program, e, s0).actions, e, clock), Next(program, e, s0).answer, stays, back)
    ensures ServedBy(program, clock, e, s0, s, t, stays, back)
  {
    ServedByIs(program, clock, e, s0, s, t, stays, back);
  }

  lemma WaitedServed(program: Program, clock: bool, e: Entry, s0: Status, s: Status, t: nat)
    requires t > 0 && Due(s0.deadline, t - 1) != t && s == s0.(deadline := Cleared(s0.deadline, t % WRAP))
    ensures ServedBy(program, clock, e, s0, s, t, true, false)
  {
    ServedByIs(program, clock, e, s0, s, t, true, false);
  }

  /** A callback of `e` starts that again, with `delay`, and wants it to go on; a zero answer would end it. */
  ghost predicate StartsOwn(conduct: Conduct, e: Entry, clock: bool, delay: U32) {
    OwnAfter(conduct.actions, e, clock) == Front(delay) && conduct.answer > 0
  }

  /** At tick `t` the callback of `caller` is due and starts `e`, among other things. */
  ghost predicate Asks(program: Program, clock: bool, caller: Entry, s0: Status, t: nat, e: Entry, delay: U32)
    requires t > 0
  {
    && Due(s0.deadline, t - 1) == t && Start(e, delay) in Next(program, caller, s0).actions
    && (e == caller ==> StartsOwn(Next(program, e, s0), e, clock, delay))
  }

  /** The alarms in `started` were started at tick `t` as the actions say. */
  ghost predicate StartsOf(actions: seq<Action>, now: map<Entry, Status>, t: nat, started: seq<Entry>) {
    forall e :: e in started ==>
      e in now && Launched(now[e], t) && Start(e, now[e].book.requested) in actions
  }

  /** Every alarm that the actions of a callback of `caller` start is in the list; its own may have been
      stopped. */
  ghost predicate AllStarted(actions: seq<Action>, now: map<Entry, Status>, clock: bool, caller: Entry,
                             chain: seq<Entry>)
  {
    forall e, delay :: Start(e, delay) in actions && e in now && e != caller && clock ==> e in chain
  }

  /** What serving `caller` at tick `t` started, and that it started what it should. */
  ghost predicate Acted(program: Program, clock: bool, caller: Entry, s0: Status, now: map<Entry, Status>,
                        t: nat, started: seq<Entry>, chain: seq<Entry>)
    requires t > 0
  {
    if Due(s0.deadline, t - 1) == t then
      && StartsOf(Next(program, caller, s0).actions, now, t, started)
      && (caller in started ==> StartsOwn(Next(program, caller, s0), caller, clock, now[caller].book.requested))
      && AllStarted(Next(program, caller, s0).actions, now, clock, caller, chain)
    else started == []
  }

  /** An alarm started at tick `t`. */
  ghost function Started(s: Status, t: nat, delay: U32): Status {
    Status(TickClock.Start(t % WRAP, delay), Book(s.calls, t, delay, 0, t), s.calls)
  }

  lemma StartedLaunched(s: Status, t: nat, delay: U32)
    ensures Launched(Started(s, t, delay), t)
  {
    NotPutOff(t % WRAP, delay);
  }

  // ----- sequences ----------------------------------------------------------------------------

  /** The alarms of `s` that are not in `left`, in the same order. */
  ghost function Without(s: seq<Entry>, left: set<Entry>): seq<Entry> {
    if s == [] then []
    else
      var last := s[|s| - 1];
      Without(s[..|s| - 1], left) + if last in left then [] else [last]
  }

  lemma Dropped(front: seq<Entry>, before: seq<Entry>, after: seq<Entry>, k: nat)
    requires k < |front|
    ensures front + before + [] + after == front[..k] + [front[k]] + (front[k + 1..] + before + after)
    ensures front[..k] + (front[k + 1..] + before + after) == (front[..k] + front[k + 1..]) + before + [] + after
  {
  }

  lemma Regrouped(front: seq<Entry>, before: seq<Entry>, self: seq<Entry>, after: seq<Entry>)
    ensures front + before + self + after == (front + before) + self + after
    ensures (front + before) + [] + after == (front + before) + after == front + before + [] + after
    ensures [] + before + self + after == before + self + after
  {
  }

  lemma Prepended(e: Entry, front: seq<Entry>, before: seq<Entry>, self: seq<Entry>, after: seq<Entry>)
    ensures [e] + (front + before + self + after) == ([e] + front) + before + self + after
  {
  }

  lemma {:induction false} WithoutOther(s: seq<Entry>, left: set<Entry>, e: Entry)
    requires e !in s
    ensures Without(s, left + {e}) == Without(s, left)
  {
    if s != [] {
      WithoutOther(s[..|s| - 1], left, e);
    }
  }

  lemma {:induction false} WithoutMember(s: seq<Entry>, left: set<Entry>, e: Entry)
    requires e in s && e !in left
    ensures e in Without(s, left)
  {
    if s[|s| - 1] != e {
      WithoutMember(s[..|s| - 1], left, e);
    }
  }

  lemma {:induction false} WithoutOnly(s: seq<Entry>, left: set<Entry>, e: Entry)
    requires e in Without(s, left)
    ensures e in s && e !in left
  {
    if e in Without(s[..|s| - 1], left) {
      WithoutOnly(s[..|s| - 1], left, e);
    }
  }

  lemma DistinctParts(a: seq<Entry>, b: seq<Entry>)
    requires Distinct(a + b)
    ensures forall e :: e in a ==> e !in b
  {
    forall i, j | 0 <= i < |a| && 0 <= j < |b|
      ensures a[i] != b[j]
    {
      assert (a + b)[i] == a[i] && (a + b)[|a| + j] == b[j];
    }
  }

  /** Moving one more alarm from the part to visit to the part visited. */
  lemma WithoutNext(s: seq<Entry>, left: set<Entry>, i: nat, self: seq<Entry>)
    requires i < |s| && Distinct(s) && (forall e :: e in left ==> e in s[..i])
    requires self == [] || self == [s[i]]
    ensures Without(s[..i + 1], if self == [] then left + {s[i]} else left) == Without(s[..i], left) + self
  {
    assert s[..i + 1][..i] == s[..i];
    if self == [] {
      WithoutOther(s[..i], left, s[i]);
    }
  }

  ghost predicate Distinct(s: seq<Entry>) {
    forall i, j :: 0 <= i < j < |s| ==> s[i] != s[j]
  }

  lemma {:induction false} WithoutNone(s: seq<Entry>, left: set<Entry>)
    requires forall e :: e in s ==> e !in left
    ensures Without(s, left) == s
  {
    if s != [] {
      WithoutNone(s[..|s| - 1], left);
      assert s == s[..|s| - 1] + [s[|s| - 1]];
    }
  }

  lemma {:induction false} WithoutOne(s: seq<Entry>, k: nat)
    requires Distinct(s) && k < |s|
    ensures Without(s, {s[k]}) == s[..k] + s[k + 1..]
  {
    var n := |s| - 1;
    assert s == s[..n] + [s[n]];
    if k < n {
      WithoutOne(s[..n], k);
      assert s[..n][k] == s[k] != s[n];
      assert s[..n][..k] == s[..k] && s[..n][k + 1..] + [s[n]] == s[k + 1..];
    } else {
      WithoutNone(s[..n], {s[k]});
    }
  }

  // ----- a callback ---------------------------------------------------------------------------

  ghost function Self(alarm: Entry, own: Own): seq<Entry> {
    if own.InPlace? then [alarm] else []
  }

  /** Where a callback of `alarm` has brought alarms and list from the state `was`, once it has done the actions
      `done`: the alarms it started, maybe its own, are in front; its own is where `OwnAfter` says; all else is
      as it was. */
  ghost predicate Acting(was: map<Entry, Status>, now: map<Entry, Status>, chain: seq<Entry>, alarm: Entry,
                         done: seq<Action>, front: seq<Entry>, before: seq<Entry>, after: seq<Entry>, t: nat,
                         clock: bool)
  {
    var own := OwnAfter(done, alarm, clock);
    && was.Keys == now.Keys && alarm in was && Distinct(chain)
    && chain == front + before + Self(alarm, own) + after
    && (alarm in front <==> own.Front?) && (own.Out? ==> alarm !in chain)
    && OwnState(was[alarm], now[alarm], t, own) && StartsOf(done, now, t, front)
    && AllStarted(done, now, clock, alarm, chain) && Others(was, now, alarm, front)
  }

  lemma ActingFirst(was: map<Entry, Status>, chain: seq<Entry>, alarm: Entry, before: seq<Entry>,
                    after: seq<Entry>, t: nat, clock: bool)
    requires alarm in was && Distinct(chain) && chain == before + [alarm] + after
    ensures Acting(was, was, chain, alarm, [], [], before, after, t, clock)
  {
    Regrouped([], before, [alarm], after);
  }

  /** Where its own alarm is in the list when the callback stops it: between `b` and `a`, or nowhere. */
  lemma OwnPlace(was: map<Entry, Status>, now: map<Entry, Status>, chain: seq<Entry>, alarm: Entry,
                 done: seq<Action>, front: seq<Entry>, before: seq<Entry>, after: seq<Entry>, t: nat, clock: bool)
    returns (front': seq<Entry>, b: seq<Entry>, a: seq<Entry>)
    requires Acting(was, now, chain, alarm, done, front, before, after, t, clock)
    ensures chain == b + [alarm] + a || (chain == b + a && alarm !in chain)
    ensures front' + before + [] + after == b + a && alarm !in front'
    ensures forall e :: e in front' ==> e in front
    ensures forall e :: e in front && e != alarm ==> e in front'
    ensures alarm in chain <==> !OwnAfter(done, alarm, clock).Out?
  {
    front', b, a := front, front + before, after;
    Regrouped(front, before, Self(alarm, OwnAfter(done, alarm, clock)), after);
    if alarm in front {
      var k :| 0 <= k < |front| && front[k] == alarm;
      Dropped(front, before, after, k);
      front', b, a := front[..k] + front[k + 1..], front[..k], front[k + 1..] + before + after;
      assert chain[k] == alarm;
      assert forall i :: 0 <= i < |front| ==> chain[i] == front[i];
    }
  }

  lemma ActingStopped(was: map<Entry, Status>, now: map<Entry, Status>, s: Status, chain: seq<Entry>,
                      chain': seq<Entry>, alarm: Entry, done: seq<Action>, front: seq<Entry>,
                      front': seq<Entry>, before: seq<Entry>, after: seq<Entry>, t: nat, clock: bool)
    requires Acting(was, now, chain, alarm, done, front, before, after, t, clock)
    requires chain' == front' + before + [] + after && Distinct(chain') && alarm !in chain' && alarm !in front'
    requires forall e :: e in front' ==> e in front
    requires forall e :: e in front && e != alarm ==> e in front'
    requires forall e :: e in chain && e != alarm ==> e in chain'
    requires alarm in now && s.calls == now[alarm].calls
    requires s.book == if OwnAfter(done, alarm, clock).Out? then now[alarm].book
                       else now[alarm].book.(until := t)
    ensures Acting(was, now[alarm := s], chain', alarm, done + [StopOwn], front', before, after, t, clock)
  {
    OwnNext(done, StopOwn, alarm, clock);
    OwnStopped(was[alarm], now[alarm], s, t, OwnAfter(done, alarm, clock));
    forall e, delay | Start(e, delay) in done + [StopOwn] && e in now && e != alarm && clock
      ensures e in chain'
    {
      assert Start(e, delay) in done;
    }
  }

  lemma AlsoStarted(done: seq<Action>, now: map<Entry, Status>, now': map<Entry, Status>, clock: bool, alarm: Entry,
                    chain: seq<Entry>, other: Entry, delay: U32)
    requires AllStarted(done, now, clock, alarm, chain) && now'.Keys == now.Keys
    ensures AllStarted(done + [Start(other, delay)], now', clock, alarm, [other] + chain)
  {
    forall e, d | Start(e, d) in done + [Start(other, delay)] && e in now' && e != alarm && clock
      ensures e in [other] + chain
    {
      if e != other {
        assert Start(e, d) in done;
      }
    }
  }

  lemma AlsoStarts(done: seq<Action>, now: map<Entry, Status>, now': map<Entry, Status>, t: nat, front: seq<Entry>,
                   other: Entry, delay: U32)
    requires StartsOf(done, now, t, front) && other !in front && other in now' && now' == now[other := now'[other]]
    requires Launched(now'[other], t) && now'[other].book.requested == delay
    ensures StartsOf(done + [Start(other, delay)], now', t, [other] + front)
  {
    forall e | e in [other] + front
      ensures e in now' && Launched(now'[e], t) && Start(e, now'[e].book.requested) in done + [Start(other, delay)]
    {
      if e != other {
        assert Start(e, now[e].book.requested) in done;
      }
    }
  }

  lemma AlsoIdle(done: seq<Action>, now: map<Entry, Status>, clock: bool, alarm: Entry, chain: seq<Entry>,
                 other: Entry, delay: U32)
    requires AllStarted(done, now, clock, alarm, chain) && (!clock || (other in now ==> other in chain))
    ensures AllStarted(done + [Start(other, delay)], now, clock, alarm, chain)
  {
    forall e, d | Start(e, d) in done + [Start(other, delay)] && e in now && e != alarm && clock
      ensures e in chain
    {
      if e != other {
        assert Start(e, d) in done;
      }
    }
  }

  lemma ActingStarted(was: map<Entry, Status>, now: map<Entry, Status>, now': map<Entry, Status>,
                      chain: seq<Entry>, alarm: Entry, done: seq<Action>, front: seq<Entry>, before: seq<Entry>,
                      after: seq<Entry>, t: nat, other: Entry, delay: U32)
    requires Acting(was, now, chain, alarm, done, front, before, after, t, true)
    requires other in now && other !in chain && now' == now[other := Started(now[other], t, delay)]
    ensures Acting(was, now', [other] + chain, alarm, done + [Start(other, delay)], [other] + front, before, after,
                   t, true)
  {
    OwnNext(done, Start(other, delay), alarm, true);
    StartedLaunched(now[other], t, delay);
    AlsoStarts(done, now, now', t, front, other, delay);
    Prepended(other, front, before, Self(alarm, OwnAfter(done, alarm, true)), after);
    assert forall e :: e in front ==> e in chain;
    AlsoStarted(done, now, now', true, alarm, chain, other, delay);
  }

  /** What the program does not do: it starts no alarm that is registered, and nothing that is not an alarm;
      and without a clock no start succeeds. */
  lemma ActingIdle(was: map<Entry, Status>, now: map<Entry, Status>, chain: seq<Entry>, alarm: Entry,
                   done: seq<Action>, front: seq<Entry>, before: seq<Entry>, after: seq<Entry>, t: nat, clock: bool,
                   other: Entry, delay: U32)
    requires Acting(was, now, chain, alarm, done, front, before, after, t, clock)
    requires !clock || (other in now ==> other in chain)
    ensures Acting(was, now, chain, alarm, done + [Start(other, delay)], front, before, after, t, clock)
  {
    OwnNext(done, Start(other, delay), alarm, clock);
    AlsoIdle(done, now, clock, alarm, chain, other, delay);
  }

  /** What a callback, and what follows it, leave: `alarm` has fired, in its place (`self`), in front or out;
      those it started are in front; no other alarm has changed. */
  ghost predicate Settled(was: map<Entry, Status>, now: map<Entry, Status>, chain: seq<Entry>, alarm: Entry,
                          conduct: Conduct, started: seq<Entry>, before: seq<Entry>, self: seq<Entry>,
                          after: seq<Entry>, t: nat, clock: bool)
  {
    && chain == started + before + self + after && self == (if self == [] then [] else [alarm])
    && was.Keys == now.Keys && alarm in was
    && Fired(was[alarm], now[alarm], t, OwnAfter(conduct.actions, alarm, clock), conduct.answer, self != [],
             alarm in started)
    && StartsOf(conduct.actions, now, t, started) && AllStarted(conduct.actions, now, clock, alarm, chain)
    && (alarm in started ==> StartsOwn(conduct, alarm, clock, now[alarm].book.requested))
    && Others(was, now, alarm, started)
  }

  /** A zero answer stops the alarm. */
  lemma SettledEnded(was: map<Entry, Status>, now: map<Entry, Status>, chain: seq<Entry>, alarm: Entry,
                     conduct: Conduct, started: seq<Entry>, before: seq<Entry>, after: seq<Entry>, t: nat,
                     clock: bool)
    requires conduct.answer == 0
    requires Acting(was, now, chain, alarm, conduct.actions + [StopOwn], started, before, after, t, clock)
    ensures Settled(was, now, chain, alarm, conduct, started, before, [], after, t, clock)
  {
    OwnNext(conduct.actions, StopOwn, alarm, clock);
    OwnEnded(was[alarm], now[alarm], t, OwnAfter(conduct.actions, alarm, clock));
    assert forall e, delay :: Start(e, delay) in conduct.actions ==> Start(e, delay) in conduct.actions + [StopOwn];
  }

  /** Any other answer puts it off. */
  lemma SettledPutOff(was: map<Entry, Status>, now: map<Entry, Status>, s: Status, chain: seq<Entry>, alarm: Entry,
                      conduct: Conduct, front: seq<Entry>, before: seq<Entry>, after: seq<Entry>, t: nat,
                      clock: bool)
    requires Acting(was, now, chain, alarm, conduct.actions, front, before, after, t, clock)
    requires alarm in now && conduct.answer > 0 && s.calls == now[alarm].calls
    requires s.deadline == Renewed(now[alarm].deadline, t % WRAP, conduct.answer)
    requires s.book == if OwnAfter(conduct.actions, alarm, clock).Front?
                       then now[alarm].book.(extra := conduct.answer) else now[alarm].book
    ensures Settled(was, now[alarm := s], chain, alarm, conduct, front, before,
                    Self(alarm, OwnAfter(conduct.actions, alarm, clock)), after, t, clock)
  {
    OwnPutOff(was[alarm], now[alarm], s, t, OwnAfter(conduct.actions, alarm, clock), conduct.answer);
  }

  lemma SettledServed(program: Program, was: map<Entry, Status>, now: map<Entry, Status>, chain: seq<Entry>,
                      alarm: Entry, s0: Status, started: seq<Entry>, before: seq<Entry>, self: seq<Entry>,
                      after: seq<Entry>, t: nat, clock: bool)
    requires t > 0 && Due(s0.deadline, t - 1) == t && alarm in was
    requires var cleared := s0.(deadline := Cleared(s0.deadline, t % WRAP));
             Settled(was[alarm := CalledAt(cleared, t)], now, chain, alarm, Next(program, alarm, s0), started, before,
                     self, after, t, clock)
    ensures alarm in now && ServedBy(program, clock, alarm, s0, now[alarm], t, self != [], alarm in started)
    ensures Acted(program, clock, alarm, s0, now, t, started, chain) && Others(was, now, alarm, started)
  {
    var called := CalledAt(s0.(deadline := Cleared(s0.deadline, t % WRAP)), t);
    FiredServed(program, clock, alarm, s0, now[alarm], t, self != [], alarm in started);
    OthersBut(was, called, now, alarm, started);
  }

  // ----- the log ------------------------------------------------------------------------------

  /** The callbacks made, the latest outermost. */
  datatype Log = Empty | Called(earlier: Log, alarm: Entry, tick: nat)

  /** The log once a tick after tick `t` has made the callback it owes, if any, to an alarm with deadline `d`. */
  ghost function LoggedOne(log: Log, e: Entry, d: Deadline, t: nat): Log {
    if Due(d, t) == t + 1 then Called(log, e, t + 1) else log
  }

  /** The log once that tick has made the callbacks it owes to the first `i` alarms of `s`, in list order. */
  ghost function Logged(log: Log, s: seq<Entry>, s0: map<Entry, Status>, t: nat, i: nat): Log
    requires i <= |s|
  {
    if i == 0 then log
    else
      var before, e := Logged(log, s, s0, t, i - 1), s[i - 1];
      if e in s0 then LoggedOne(before, e, s0[e].deadline, t) else before
  }

  lemma LoggedNext(log: Log, s: seq<Entry>, s0: map<Entry, Status>, t: nat, i: nat)
    requires i < |s| && s[i] in s0
    ensures Logged(log, s, s0, t, i + 1) == LoggedOne(Logged(log, s, s0, t, i), s[i], s0[s[i]].deadline, t)
  {
  }

  /** The ticks of the callbacks of one alarm. */
  function CallsTo(log: Log, e: Entry): seq<nat> {
    match log
    case Empty => []
    case Called(earlier, alarm, tick) => CallsTo(earlier, e) + if alarm == e then [tick] else []
  }

  lemma {:induction false} LoggedCalls(log: Log, s: seq<Entry>, s0: map<Entry, Status>, t: nat, i: nat, e: Entry)
    requires i <= |s|
    ensures CallsTo(log, e) <= CallsTo(Logged(log, s, s0, t, i), e)
  {
    if i > 0 {
      LoggedCalls(log, s, s0, t, i - 1, e);
    }
  }

  lemma CallsNext(log: Log, e: Entry, alarm: Entry, t: nat)
    ensures CallsTo(Called(log, alarm, t), e) == if alarm == e then CallsTo(log, e) + [t] else CallsTo(log, e)
  {
  }

  // ----- the walk -----------------------------------------------------------------------------

  /** The walk over a list that was `chain0` has visited its first `i` alarms: those in `left` have gone, and
      callbacks have put `started` in front. */
  ghost predicate Walking(chain: seq<Entry>, chain0: seq<Entry>, i: nat, started: seq<Entry>, left: set<Entry>) {
    && i <= |chain0| && Distinct(chain0)
    && (forall e :: e in left ==> e in chain0[..i])
    && chain == started + Without(chain0[..i], left) + chain0[i..]
  }

  /** One more visit, during which callbacks put `more` in front and the alarm visited became `self`. */
  lemma WalkingNext(chain: seq<Entry>, chain': seq<Entry>, chain0: seq<Entry>, i: nat, started: seq<Entry>,
                    left: set<Entry>, more: seq<Entry>, self: seq<Entry>)
    requires Walking(chain, chain0, i, started, left) && i < |chain0| && (self == [] || self == [chain0[i]])
    requires chain' == more + (started + Without(chain0[..i], left)) + self + chain0[i + 1..] && Distinct(chain')
    ensures Walking(chain', chain0, i + 1, more + started, if self == [] then left + {chain0[i]} else left)
    ensures forall k :: 0 <= k < |chain0| && k != i && (k < i ==> chain0[k] !in left) ==> chain0[k] !in more
    ensures forall e :: e in started ==> e !in more
  {
    var visited := Without(chain0[..i], left);
    WithoutNext(chain0, left, i, self);
    assert chain' == more + started + (visited + self) + chain0[i + 1..];
    assert chain' == more + (started + visited + self + chain0[i + 1..]);
    DistinctParts(more, started + visited + self + chain0[i + 1..]);
    forall k | 0 <= k < |chain0| && k != i && (k < i ==> chain0[k] !in left)
      ensures chain0[k] !in more
    {
      if k < i {
        assert chain0[k] in chain0[..i];
        WithoutMember(chain0[..i], left, chain0[k]);
      } else {
        assert chain0[k] == chain0[i + 1..][k - i - 1];
      }
    }
  }

  lemma WalkingDone(chain: seq<Entry>, chain0: seq<Entry>, started: seq<Entry>, left: set<Entry>)
    requires Walking(chain, chain0, |chain0|, started, left)
    ensures chain == started + Without(chain0, left) && forall e :: e in left ==> e in chain0
  {
    assert chain0[..|chain0|] == chain0 && chain0[|chain0|..] == [];
  }

  /** Where the walk stands: the alarm to visit comes after what is in front of it, and is none of it. */
  lemma WalkingHere(chain: seq<Entry>, chain0: seq<Entry>, i: nat, started: seq<Entry>, left: set<Entry>)
    requires Walking(chain, chain0, i, started, left) && i < |chain0| && Distinct(chain)
    ensures chain == (started + Without(chain0[..i], left)) + [chain0[i]] + chain0[i + 1..]
    ensures chain0[i] !in started && chain0[i] !in left
  {
    var before := started + Without(chain0[..i], left);
    assert chain0[i..] == [chain0[i]] + chain0[i + 1..];
    assert chain == before + chain0[i..];
    DistinctParts(before, chain0[i..]);
    assert chain0[i] in chain0[i..];
    assert forall e :: e in started ==> e in before;
    assert chain0 == chain0[..i] + chain0[i..];
    DistinctParts(chain0[..i], chain0[i..]);
  }

  /** Every alarm visited at tick `t` was served; those started were asked for by a callback, and those asked
      for are there; no other alarm has changed. */
  ghost predicate ServedUpTo(program: Program, clock: bool, now: map<Entry, Status>, chain0: seq<Entry>,
                             s0: map<Entry, Status>, t: nat, i: nat, started: seq<Entry>, left: set<Entry>)
    requires t > 0 && i <= |chain0| && s0.Keys == now.Keys && (forall e :: e in chain0 ==> e in s0)
  {
    && (forall k {:trigger now[chain0[k]]} :: 0 <= k < i ==>
          ServedBy(program, clock, chain0[k], s0[chain0[k]], now[chain0[k]], t, chain0[k] !in left,
                   chain0[k] in started))
    && (forall k {:trigger now[chain0[k]]} :: i <= k < |chain0| ==> now[chain0[k]] == s0[chain0[k]])
    && (forall e :: e in started ==>
          e in now && Launched(now[e], t) && AskedBy(program, clock, chain0, s0, t, i, e, now[e]))
    && (forall e :: e in now && e !in chain0 && e !in started ==> now[e] == s0[e])
    && (clock ==> forall k, e, delay {:trigger Asks(program, clock, chain0[k], s0[chain0[k]], t, e, delay)} ::
          0 <= k < i && Asks(program, clock, chain0[k], s0[chain0[k]], t, e, delay) && e in now && e !in chain0 ==>
            e in started)
  }

  ghost predicate AskedBy(program: Program, clock: bool, chain0: seq<Entry>, s0: map<Entry, Status>, t: nat, i: nat,
                          e: Entry, s: Status)
    requires t > 0 && i <= |chain0| && (forall e :: e in chain0 ==> e in s0)
  {
    exists k :: 0 <= k < i && Asks(program, clock, chain0[k], s0[chain0[k]], t, e, s.book.requested)
  }

  /** Serving one more alarm leaves those served before as they were, but for those it starts. */
  lemma ServedStay(program: Program, clock: bool, was: map<Entry, Status>, now: map<Entry, Status>,
                   chain0: seq<Entry>, s0: map<Entry, Status>, t: nat, i: nat, started: seq<Entry>,
                   left: set<Entry>, more: seq<Entry>, k: nat)
    requires t > 0 && i < |chain0| && s0.Keys == was.Keys == now.Keys && (forall e :: e in chain0 ==> e in s0)
    requires ServedUpTo(program, clock, was, chain0, s0, t, i, started, left)
    requires Others(was, now, chain0[i], more)
    requires forall e :: e in started ==> e !in more && e != chain0[i]
    requires k < i && chain0[k] != chain0[i] && (chain0[k] in more ==> chain0[k] in left)
    requires forall e :: e in more ==> e in now && Launched(now[e], t)
    ensures ServedBy(program, clock, chain0[k], s0[chain0[k]], now[chain0[k]], t, chain0[k] !in left,
                     chain0[k] in more + started)
  {
    var e := chain0[k];
    assert ServedBy(program, clock, e, s0[chain0[k]], was[chain0[k]], t, e !in left, e in started);
    if e in more {
      ServedByBack(program, clock, e, s0[e], was[e], now[e], t);
    }
  }

  lemma StartedAsked(program: Program, clock: bool, was: map<Entry, Status>, now: map<Entry, Status>,
                   chain0: seq<Entry>, s0: map<Entry, Status>, t: nat, i: nat, started: seq<Entry>,
                   left: set<Entry>, more: seq<Entry>, e: Entry)
    requires t > 0 && i < |chain0| && s0.Keys == was.Keys == now.Keys && (forall e :: e in chain0 ==> e in s0)
    requires ServedUpTo(program, clock, was, chain0, s0, t, i, started, left)
    requires Others(was, now, chain0[i], more)
    requires forall e :: e in started ==> e !in more && e != chain0[i]
    requires Due(s0[chain0[i]].deadline, t - 1) == t && e in more + started
    requires StartsOf(Next(program, chain0[i], s0[chain0[i]]).actions, now, t, more)
    requires chain0[i] in more ==> StartsOwn(Next(program, chain0[i], s0[chain0[i]]), chain0[i], clock,
                                             now[chain0[i]].book.requested)
    ensures e in now && Launched(now[e], t) && AskedBy(program, clock, chain0, s0, t, i + 1, e, now[e])
  {
    if e in more {
      assert Asks(program, clock, chain0[i], s0[chain0[i]], t, e, now[e].book.requested);
    } else {
      StillAsked(program, clock, chain0, s0, t, i, e, was[e]);
    }
  }

  lemma StillAsked(program: Program, clock: bool, chain0: seq<Entry>, s0: map<Entry, Status>, t: nat, i: nat, e: Entry,
                   s: Status)
    requires t > 0 && i < |chain0| && (forall e :: e in chain0 ==> e in s0)
    requires AskedBy(program, clock, chain0, s0, t, i, e, s)
    ensures AskedBy(program, clock, chain0, s0, t, i + 1, e, s)
  {
    var k :| 0 <= k < i && Asks(program, clock, chain0[k], s0[chain0[k]], t, e, s.book.requested);
  }

  lemma AskedStarted(program: Program, clock: bool, was: map<Entry, Status>, now: map<Entry, Status>,
                   chain0: seq<Entry>, s0: map<Entry, Status>, t: nat, i: nat, started: seq<Entry>,
                   left: set<Entry>, more: seq<Entry>, chain': seq<Entry>, k: nat, e: Entry, delay: U32)
    requires t > 0 && i < |chain0| && s0.Keys == was.Keys == now.Keys && (forall e :: e in chain0 ==> e in s0)
    requires ServedUpTo(program, clock, was, chain0, s0, t, i, started, left)
    requires Others(was, now, chain0[i], more)
    requires forall e :: e in started ==> e !in more && e != chain0[i]
    requires k < i + 1 && clock && e in now && e !in chain0
    requires Asks(program, clock, chain0[k], s0[chain0[k]], t, e, delay)
    requires Acted(program, clock, chain0[i], s0[chain0[i]], now, t, more, chain')
    requires forall e :: e in chain' ==> e in more || e in started || e in chain0
    ensures e in more + started
  {
    if k < i {
      assert Asks(program, clock, chain0[k], s0[chain0[k]], t, e, delay);
    } else {
      assert Start(e, delay) in Next(program, chain0[i], s0[chain0[i]]).actions;
    }
  }

  /** Serving one more alarm leaves the others served, or as they were. */
  lemma ServedNext(program: Program, clock: bool, was: map<Entry, Status>, now: map<Entry, Status>,
                   chain0: seq<Entry>, s0: map<Entry, Status>, t: nat, i: nat, started: seq<Entry>,
                   left: set<Entry>, more: seq<Entry>, gone: bool, chain': seq<Entry>)
    requires t > 0 && i < |chain0| && s0.Keys == was.Keys == now.Keys && (forall e :: e in chain0 ==> e in s0)
    requires ServedUpTo(program, clock, was, chain0, s0, t, i, started, left)
    requires Others(was, now, chain0[i], more)
    requires forall e :: e in started ==> e !in more && e != chain0[i]
    requires Distinct(chain0) && chain0[i] !in left
    requires ServedBy(program, clock, chain0[i], s0[chain0[i]], now[chain0[i]], t, !gone, chain0[i] in more)
    requires Acted(program, clock, chain0[i], s0[chain0[i]], now, t, more, chain')
    requires forall e :: e in chain' ==> e in more || e in started || e in chain0
    requires forall k :: 0 <= k < |chain0| && k != i && (k < i ==> chain0[k] !in left) ==> chain0[k] !in more
    ensures ServedUpTo(program, clock, now, chain0, s0, t, i + 1, more + started,
                       if gone then left + {chain0[i]} else left)
  {
    var left' := if gone then left + {chain0[i]} else left;
    forall k | 0 <= k < i + 1
      ensures ServedBy(program, clock, chain0[k], s0[chain0[k]], now[chain0[k]], t, chain0[k] !in left',
                       chain0[k] in more + started)
    {
      if k < i {
        ServedStay(program, clock, was, now, chain0, s0, t, i, started, left, more, k);
      }
    }
    forall k | i < k < |chain0|
      ensures now[chain0[k]] == s0[chain0[k]]
    {
      assert was[chain0[k]] == s0[chain0[k]];
    }
    forall e | e in more + started
      ensures e in now && Launched(now[e], t) && AskedBy(program, clock, chain0, s0, t, i + 1, e, now[e])
    {
      if Due(s0[chain0[i]].deadline, t - 1) == t {
        StartedAsked(program, clock, was, now, chain0, s0, t, i, started, left, more, e);
      } else {
        StillAsked(program, clock, chain0, s0, t, i, e, was[e]);
      }
    }
    forall k, e, delay | 0 <= k < i + 1 && Asks(program, clock, chain0[k], s0[chain0[k]], t, e, delay) && e in now
                         && e !in chain0 && clock
      ensures e in more + started
    {
      AskedStarted(program, clock, was, now, chain0, s0, t, i, started, left, more, chain', k, e, delay);
    }
  }

  // ----- moments and steps --------------------------------------------------------------------

  /** The alarm system between two operations. */
  datatype Moment = Moment(ticks: nat, rate: U32, chain: seq<Entry>, log: Log, status: map<Entry, Status>)

  ghost predicate Proper(m: Moment) {
    && Distinct(m.chain) && (forall e :: e in m.chain ==> e in m.status)
    && (forall e :: e in m.status ==> m.status[e].calls == CallsTo(m.log, e))
  }

  /** In the tick that began at `a` the walk has come to place `i` of the list, and things are as in `b`. */
  ghost predicate Walked(program: Program, a: Moment, b: Moment, i: nat, started: seq<Entry>, left: set<Entry>) {
    && Proper(a) && Proper(b) && a.status.Keys == b.status.Keys
    && b.ticks == a.ticks + 1 && b.rate == a.rate && i <= |a.chain|
    && Walking(b.chain, a.chain, i, started, left)
    && ServedUpTo(program, a.rate > 0, b.status, a.chain, a.status, b.ticks, i, started, left)
    && b.log == Logged(a.log, a.chain, a.status, a.ticks, i)
  }

  lemma WalkedFirst(program: Program, a: Moment, b: Moment)
    requires Proper(a) && b == a.(ticks := a.ticks + 1)
    ensures Walked(program, a, b, 0, [], {})
  {
    assert a.chain[..0] == [] && a.chain[0..] == a.chain;
    assert Without([], {}) == [];
    assert a.chain == [] + [] + a.chain;
  }

  /** Once one more alarm has been served, which led from `b` to `c`, the walk has come one place further. */
  lemma WalkedNext(program: Program, a: Moment, b: Moment, c: Moment, i: nat, started: seq<Entry>,
                   left: set<Entry>, more: seq<Entry>, self: seq<Entry>)
    requires Walked(program, a, b, i, started, left) && i < |a.chain|
    requires Proper(c) && c.status.Keys == b.status.Keys && c.ticks == b.ticks && c.rate == b.rate
    requires c.chain == more + (started + Without(a.chain[..i], left)) + self + a.chain[i + 1..]
    requires self == (if self == [] then [] else [a.chain[i]])
    requires ServedBy(program, a.rate > 0, a.chain[i], a.status[a.chain[i]], c.status[a.chain[i]], c.ticks,
                      self != [], a.chain[i] in more)
    requires Acted(program, a.rate > 0, a.chain[i], a.status[a.chain[i]], c.status, c.ticks, more, c.chain)
    requires Others(b.status, c.status, a.chain[i], more)
    requires c.log == LoggedOne(b.log, a.chain[i], a.status[a.chain[i]].deadline, a.ticks)
    ensures Walked(program, a, c, i + 1, more + started, if self == [] then left + {a.chain[i]} else left)
  {
    LoggedNext(a.log, a.chain, a.status, a.ticks, i);
    WalkingHere(b.chain, a.chain, i, started, left);
    WalkingNext(b.chain, c.chain, a.chain, i, started, left, more, self);
    InWalk(c.chain, a.chain, i, started, left, more, self);
    ServedNext(program, a.rate > 0, b.status, c.status, a.chain, a.status, c.ticks, i, started, left, more,
               self == [], c.chain);
  }

  lemma InWalk(chain: seq<Entry>, chain0: seq<Entry>, i: nat, started: seq<Entry>, left: set<Entry>,
               more: seq<Entry>, self: seq<Entry>)
    requires i < |chain0| && self == (if self == [] then [] else [chain0[i]])
    requires chain == more + (started + Without(chain0[..i], left)) + self + chain0[i + 1..]
    ensures forall e :: e in chain ==> e in more || e in started || e in chain0
  {
    forall e | e in chain && e !in more && e !in started
      ensures e in chain0
    {
      if e in Without(chain0[..i], left) {
        WithoutOnly(chain0[..i], left, e);
      }
    }
  }

  /** A whole tick, from `a` to `b`: every alarm that was registered was visited and served, in list order; the
      callbacks made are exactly those due; those in `left` no longer have their place, the others keep their
      order, behind the ones that callbacks started; and no other alarm has changed. */
  ghost predicate TickStep(program: Program, a: Moment, b: Moment, started: seq<Entry>, left: set<Entry>) {
    && Proper(a) && Proper(b) && a.status.Keys == b.status.Keys
    && b.ticks == a.ticks + 1 && b.rate == a.rate
    && forall i: nat | i == |a.chain| :: Walked(program, a, b, i, started, left)
  }

  ghost predicate Ticked(program: Program, a: Moment, b: Moment) {
    exists n: nat, left: set<Entry> | n <= |b.chain| && left <= Members(a.chain) ::
      TickStep(program, a, b, b.chain[..n], left)
  }

  ghost function Members(s: seq<Entry>): set<Entry> {
    set e | e in s
  }

  lemma TickedIs(program: Program, a: Moment, b: Moment, started: seq<Entry>, left: set<Entry>)
    requires TickStep(program, a, b, started, left)
    ensures Ticked(program, a, b)
  {
    assert Walked(program, a, b, |a.chain|, started, left);
    WalkingDone(b.chain, a.chain, started, left);
    assert b.chain[..|started|] == started;
    assert left <= Members(a.chain);
  }

  /** What a tick comes to for one alarm: it is registered if it kept its place or was started; if it was
      registered it was served; if not it changed only by being started. */
  ghost predicate Done(program: Program, clock: bool, e: Entry, s0: Status, s: Status, t: nat, wasIn: bool, isIn: bool,
                       stays: bool, back: bool)
    requires t > 0
  {
    && (isIn <==> back || (wasIn && stays))
    && (wasIn ==> ServedBy(program, clock, e, s0, s, t, stays, back))
    && (back ==> Launched(s, t))
    && (!wasIn && !back ==> s == s0)
  }

  lemma TickDone(program: Program, a: Moment, b: Moment, started: seq<Entry>, left: set<Entry>, e: Entry)
    requires TickStep(program, a, b, started, left) && e in a.status
    ensures Done(program, a.rate > 0, e, a.status[e], b.status[e], b.ticks, e in a.chain, e in b.chain, e !in left,
                 e in started)
  {
    assert Walked(program, a, b, |a.chain|, started, left);
    WalkingDone(b.chain, a.chain, started, left);
    if e in Without(a.chain, left) {
      WithoutOnly(a.chain, left, e);
    }
    if e in a.chain && e !in left {
      WithoutMember(a.chain, left, e);
    }
    if e in a.chain {
      var k :| 0 <= k < |a.chain| && a.chain[k] == e;
      assert ServedBy(program, a.rate > 0, a.chain[k], a.status[a.chain[k]], b.status[a.chain[k]], b.ticks,
                      a.chain[k] !in left, a.chain[k] in started);
    }
  }

  ghost predicate AskedByAnother(program: Program, clock: bool, chain0: seq<Entry>, s0: map<Entry, Status>, t: nat,
                                 e: Entry, s: Status)
    requires t > 0 && (forall e :: e in chain0 ==> e in s0)
  {
    exists k :: 0 <= k < |chain0| && chain0[k] != e
      && Asks(program, clock, chain0[k], s0[chain0[k]], t, e, s.book.requested)
  }

  /** What the next callback of an alarm in state `s0` does ends its registration. */
  ghost predicate Ends(program: Program, clock: bool, e: Entry, s0: Status) {
    Next(program, e, s0).answer == 0 || OwnAfter(Next(program, e, s0).actions, e, clock).Out?
  }

  lemma OnlyAnother(program: Program, clock: bool, chain0: seq<Entry>, s0: map<Entry, Status>, t: nat, e: Entry,
                    s: Status)
    requires t > 0 && (forall e :: e in chain0 ==> e in s0) && AskedBy(program, clock, chain0, s0, t, |chain0|, e, s)
    requires e in s0 && Ends(program, clock, e, s0[e])
    ensures AskedByAnother(program, clock, chain0, s0, t, e, s)
  {
    var k :| 0 <= k < |chain0| && Asks(program, clock, chain0[k], s0[chain0[k]], t, e, s.book.requested);
    assert chain0[k] != e;
  }

  lemma EndsNotStays(program: Program, clock: bool, e: Entry, s0: Status, s: Status, t: nat, stays: bool, back: bool)
    requires t > 0 && ServedBy(program, clock, e, s0, s, t, stays, back)
    requires Due(s0.deadline, t - 1) == t && Ends(program, clock, e, s0)
    ensures !stays
  {
    ServedByIs(program, clock, e, s0, s, t, stays, back);
  }

  lemma TickStarted(program: Program, a: Moment, b: Moment, started: seq<Entry>, left: set<Entry>, e: Entry)
    requires TickStep(program, a, b, started, left) && e in started
    ensures e in b.status && AskedBy(program, a.rate > 0, a.chain, a.status, b.ticks, |a.chain|, e, b.status[e])
  {
    assert Walked(program, a, b, |a.chain|, started, left);
  }

  /** An alarm that was due and whose callback answers zero, or leaves it stopped, is out of the list after the
      tick, unless the callback of another alarm has started it. */
  lemma EndsUnlessAsked(program: Program, a: Moment, b: Moment, e: Entry)
    requires Proper(a) && Ticked(program, a, b) && e in a.chain && e in a.status && e in b.status
    requires Due(a.status[e].deadline, a.ticks) == a.ticks + 1 && Ends(program, a.rate > 0, e, a.status[e])
    ensures e in b.chain ==>
              AskedByAnother(program, a.rate > 0, a.chain, a.status, a.ticks + 1, e, b.status[e])
  {
    var n: nat, left: set<Entry> :| n <= |b.chain| && left <= Members(a.chain)
      && TickStep(program, a, b, b.chain[..n], left);
    TickDone(program, a, b, b.chain[..n], left, e);
    EndsNotStays(program, a.rate > 0, e, a.status[e], b.status[e], b.ticks, e !in left, e in b.chain[..n]);
    if e in b.chain {
      TickStarted(program, a, b, b.chain[..n], left, e);
      OnlyAnother(program, a.rate > 0, a.chain, a.status, b.ticks, e, b.status[e]);
    }
  }

  /** Exact firing, alarm by alarm: a tick keeps the promise made for each one, whatever state the others are
      in and whatever the callbacks do. */
  lemma TickKeeps(program: Program, a: Moment, b: Moment, started: seq<Entry>, left: set<Entry>, e: Entry)
    requires TickStep(program, a, b, started, left) && e in a.status
    requires Kept(a.status[e], a.ticks, AnswersOf(program, e), e in a.chain)
    ensures Kept(b.status[e], b.ticks, AnswersOf(program, e), e in b.chain)
  {
    TickDone(program, a, b, started, left, e);
    DoneKept(program, a.rate > 0, e, a.status[e], b.status[e], a.ticks, e in a.chain, e in b.chain, e !in left,
             e in started);
  }

  lemma DoneKept(program: Program, clock: bool, e: Entry, s0: Status, s: Status, t: nat, wasIn: bool, isIn: bool,
                 stays: bool, back: bool)
    requires Done(program, clock, e, s0, s, t + 1, wasIn, isIn, stays, back)
    requires Kept(s0, t, AnswersOf(program, e), wasIn)
    ensures Kept(s, t + 1, AnswersOf(program, e), isIn)
  {
    if wasIn {
      ServedByKept(program, clock, e, s0, s, t, stays, back);
    } else if back {
      LaunchedKept(s, t + 1, AnswersOf(program, e));
    } else {
      KeptLater(s0, t, t + 1, AnswersOf(program, e));
    }
  }

  // ----- whole runs ---------------------------------------------------------------------------

  /** What the program and the clock may do between ticks, and a tick. */
  datatype Op = ClockOp(rate: U32) | StartOp(newAlarm: Entry?, delay: U32) | StopOp(oldAlarm: Entry) | TickOp

  ghost function Stopped(s: Status, t: nat): Status {
    s.(book := s.book.(until := t))
  }

  /** The start is one of an alarm that is not registered, and there is a clock. */
  ghost predicate Starts(op: Op, a: Moment) {
    op.StartOp? && a.rate > 0 && op.newAlarm != null && op.newAlarm in a.status && op.newAlarm !in a.chain
  }

  /** What an operation leads to. */
  ghost predicate Step(program: Program, op: Op, a: Moment, b: Moment) {
    match op
    case ClockOp(rate) => b == a.(rate := if a.rate == 0 then rate else a.rate)
    case StartOp(e, delay) =>
      b == if Starts(op, a) then
             a.(chain := [e] + a.chain, status := a.status[e := Started(a.status[e], a.ticks, delay)])
           else a
    case StopOp(e) =>
      b == if e in a.chain && e in a.status then
             a.(chain := Without(a.chain, {e}), status := a.status[e := Stopped(a.status[e], a.ticks)])
           else a
    case TickOp => Ticked(program, a, b)
  }

  /** Everyone who started an alarm got the callbacks promised. */
  ghost predicate OnPromise(program: Program, m: Moment) {
    forall e :: e in m.status ==> Kept(m.status[e], m.ticks, AnswersOf(program, e), e in m.chain)
  }

  lemma StepKeeps(program: Program, op: Op, a: Moment, b: Moment, e: Entry)
    requires Proper(a) && Step(program, op, a, b) && e in a.status
    requires Kept(a.status[e], a.ticks, AnswersOf(program, e), e in a.chain)
    ensures e in b.status && Kept(b.status[e], b.ticks, AnswersOf(program, e), e in b.chain)
  {
    match op
    case ClockOp(_) =>
    case StartOp(_, _) =>
      if Starts(op, a) && op.newAlarm == e {
        StartedLaunched(a.status[e], a.ticks, op.delay);
        LaunchedKept(b.status[e], b.ticks, AnswersOf(program, e));
      }
    case StopOp(_) =>
      if op.oldAlarm in a.status {
        StopDone(program, op, a, b, e);
      }
      if op.oldAlarm == e && e in a.chain {
        EndedKept(a.status[e], b.status[e], a.ticks, AnswersOf(program, e));
      }
    case TickOp =>
      var n: nat, left: set<Entry> :| n <= |b.chain| && left <= Members(a.chain)
        && TickStep(program, a, b, b.chain[..n], left);
      TickKeeps(program, a, b, b.chain[..n], left, e);
  }

  lemma StopDone(program: Program, op: Op, a: Moment, b: Moment, e: Entry)
    requires op.StopOp? && Step(program, op, a, b) && e in a.status && op.oldAlarm in a.status
    ensures e in b.chain <==> e in a.chain && e != op.oldAlarm
  {
    if op.oldAlarm in a.chain {
      if e in a.chain && e != op.oldAlarm {
        WithoutMember(a.chain, {op.oldAlarm}, e);
      }
      if e in b.chain {
        WithoutOnly(a.chain, {op.oldAlarm}, e);
      }
    }
  }

  /** A run of operations and the moments between them. */
  ghost predicate Traced(program: Program, ops: seq<Op>, moments: seq<Moment>) {
    && |moments| == |ops| + 1
    && (forall i {:trigger Proper(moments[i])} :: 0 <= i < |moments| ==>
          Proper(moments[i]) && moments[i].status.Keys == moments[0].status.Keys)
    && (forall i {:trigger Step(program, ops[i], moments[i], moments[i + 1])} :: 0 <= i < |ops| ==>
          Step(program, ops[i], moments[i], moments[i + 1]))
  }

  lemma TracedNext(program: Program, ops: seq<Op>, moments: seq<Moment>, op: Op, now: Moment)
    requires Traced(program, ops, moments) && Step(program, op, moments[|ops|], now)
    requires Proper(now) && now.status.Keys == moments[0].status.Keys
    ensures Traced(program, ops + [op], moments + [now])
  {
    var n, os, ms := |ops|, ops + [op], moments + [now];
    forall i | 0 <= i < n + 1
      ensures Step(program, os[i], ms[i], ms[i + 1])
    {
      if i < n {
        assert Step(program, ops[i], moments[i], moments[i + 1]);
      }
    }
  }

  lemma TracedKeep(program: Program, ops: seq<Op>, moments: seq<Moment>, k: nat)
    requires Traced(program, ops, moments) && k < |ops| && OnPromise(program, moments[k])
    ensures OnPromise(program, moments[k + 1])
  {
    var a, b := moments[k], moments[k + 1];
    assert Step(program, ops[k], moments[k], moments[k + 1]) && Proper(moments[k]) && Proper(moments[k + 1]);
    forall e | e in b.status
      ensures Kept(b.status[e], b.ticks, AnswersOf(program, e), e in b.chain)
    {
      StepKeeps(program, ops[k], a, b, e);
    }
  }

  /** Over any run every promise is kept. */
  lemma {:induction false} TracedKeeps(program: Program, ops: seq<Op>, moments: seq<Moment>, n: nat)
    requires Traced(program, ops, moments) && n <= |ops| && OnPromise(program, moments[0])
    ensures OnPromise(program, moments[n])
  {
    if n > 0 {
      TracedKeeps(program, ops, moments, n - 1);
      TracedKeep(program, ops, moments, n - 1);
    }
  }

  /** The callbacks numbered from `k` to `n` want their alarm to go on. */
  ghost predicate GoesOn(program: Program, e: Entry, k: nat, n: nat) {
    forall c :: k <= c < n ==> program(e, c).answer > 0 && StopOwn !in program(e, c).actions
  }

  lemma {:induction false} StaysInPlace(actions: seq<Action>, e: Entry, clock: bool)
    requires StopOwn !in actions
    ensures OwnAfter(actions, e, clock) == InPlace
  {
    if actions != [] {
      StaysInPlace(actions[..|actions| - 1], e, clock);
    }
  }

  /** A registered alarm that is not stopped, and whose callbacks in a step want it to go on, stays registered
      on the same terms; it gets at most one more callback. */
  lemma StepGoesOn(program: Program, op: Op, a: Moment, b: Moment, e: Entry)
    requires Proper(a) && Step(program, op, a, b) && e in a.chain && e in b.status && op != StopOp(e)
    requires GoesOn(program, e, |a.status[e].calls|, |b.status[e].calls|)
    ensures e in b.chain && b.status[e].book == a.status[e].book
  {
    match op
    case ClockOp(_) =>
    case StartOp(_, _) =>
    case StopOp(_) =>
      if op.oldAlarm in a.status {
        StopDone(program, op, a, b, e);
      }
    case TickOp =>
      var n: nat, left: set<Entry> :| n <= |b.chain| && left <= Members(a.chain)
        && TickStep(program, a, b, b.chain[..n], left);
      TickDone(program, a, b, b.chain[..n], left, e);
      ServedByGoesOn(program, a.rate > 0, e, a.status[e], b.status[e], b.ticks, e !in left, e in b.chain[..n]);
  }

  /** No callback is ever forgotten. */
  lemma StepCalls(program: Program, op: Op, a: Moment, b: Moment, e: Entry)
    requires Proper(a) && Proper(b) && Step(program, op, a, b) && e in a.status
    ensures e in b.status && a.status[e].calls <= b.status[e].calls
  {
    if op.TickOp? {
      var n: nat, left: set<Entry> :| n <= |b.chain| && left <= Members(a.chain)
        && TickStep(program, a, b, b.chain[..n], left);
      assert Walked(program, a, b, |a.chain|, b.chain[..n], left);
      LoggedCalls(a.log, a.chain, a.status, a.ticks, |a.chain|, e);
    }
  }

  /** The terms of a registration that the program began at tick `since`. */
  ghost predicate OnTerms(s: Status, calls: seq<nat>, since: nat, delay: U32) {
    s.book.earlier == calls && s.book.since == since && s.book.requested == delay && s.book.extra == 0
  }

  lemma TracedStart(program: Program, ops: seq<Op>, moments: seq<Moment>, i: nat, e: Entry)
    requires Traced(program, ops, moments) && i < |ops| && Starts(ops[i], moments[i]) && ops[i].newAlarm == e
    ensures var a, b := moments[i], moments[i + 1];
            && e in a.status && e in b.status && e in b.chain
            && OnTerms(b.status[e], a.status[e].calls, a.ticks, ops[i].delay)
            && b.status[e].calls == a.status[e].calls
            && Kept(b.status[e], b.ticks, AnswersOf(program, e), true)
  {
    var a, b := moments[i], moments[i + 1];
    assert Step(program, ops[i], moments[i], moments[i + 1]);
    StartedLaunched(a.status[e], a.ticks, ops[i].delay);
    LaunchedKept(b.status[e], b.ticks, AnswersOf(program, e));
  }

  lemma TracedGoesOn(program: Program, ops: seq<Op>, moments: seq<Moment>, k: nat, e: Entry)
    requires Traced(program, ops, moments) && k < |ops| && e in moments[k].status && e in moments[k + 1].status
    requires e in moments[k].chain && ops[k] != StopOp(e)
    requires Kept(moments[k].status[e], moments[k].ticks, AnswersOf(program, e), true)
    requires GoesOn(program, e, |moments[k].status[e].calls|, |moments[k + 1].status[e].calls|)
    ensures e in moments[k + 1].chain && moments[k + 1].status[e].book == moments[k].status[e].book
    ensures Kept(moments[k + 1].status[e], moments[k + 1].ticks, AnswersOf(program, e), true)
  {
    assert Step(program, ops[k], moments[k], moments[k + 1]) && Proper(moments[k]);
    StepGoesOn(program, ops[k], moments[k], moments[k + 1], e);
    StepKeeps(program, ops[k], moments[k], moments[k + 1], e);
  }

  lemma TracedCalls(program: Program, ops: seq<Op>, moments: seq<Moment>, k: nat, e: Entry)
    requires Traced(program, ops, moments) && k < |ops| && e in moments[0].status
    ensures e in moments[k].status && e in moments[k + 1].status
    ensures moments[k].status[e].calls <= moments[k + 1].status[e].calls
  {
    assert Step(program, ops[k], moments[k], moments[k + 1]) && Proper(moments[k]) && Proper(moments[k + 1]);
    StepCalls(program, ops[k], moments[k], moments[k + 1], e);
  }

  /** An alarm that the program starts and does not stop, and whose callbacks want it to go on, stays registered
      on the terms it was started on. */
  lemma {:induction false} StaysOnTerms(program: Program, ops: seq<Op>, moments: seq<Moment>, i: nat, j: nat,
                                        e: Entry)
    requires Traced(program, ops, moments) && i < j <= |ops| && e in moments[0].status
    requires Starts(ops[i], moments[i]) && ops[i].newAlarm == e && e in moments[i].status && e in moments[j].status
    requires forall k :: i < k < j ==> ops[k] != StopOp(e)
    requires GoesOn(program, e, |moments[i].status[e].calls|, |moments[j].status[e].calls|)
    ensures e in moments[j].chain && moments[i].status[e].calls <= moments[j].status[e].calls
    ensures OnTerms(moments[j].status[e], moments[i].status[e].calls, moments[i].ticks, ops[i].delay)
    ensures Kept(moments[j].status[e], moments[j].ticks, AnswersOf(program, e), true)
    decreases j
  {
    if j == i + 1 {
      TracedStart(program, ops, moments, i, e);
    } else {
      TracedCalls(program, ops, moments, j - 1, e);
      StaysOnTerms(program, ops, moments, i, j - 1, e);
      TracedGoesOn(program, ops, moments, j - 1, e);
    }
  }

  /** Exact firing over whole runs. At moment `i` the program starts an alarm with a delay that the code times
      right. As long as the program does not stop it and its callbacks want it to go on, it stays registered,
      and by moment `j` its callbacks were made at exactly these ticks: the first one `delay` + 1 ticks after
      the start, and each further one as many ticks after the one before as that answered. */
  lemma FiresAsAsked(program: Program, ops: seq<Op>, moments: seq<Moment>, i: nat, j: nat, e: Entry)
    requires Traced(program, ops, moments) && i < j <= |ops| && e in moments[0].status
    requires Starts(ops[i], moments[i]) && ops[i].newAlarm == e && e in moments[i].status && e in moments[j].status
    requires Timely(moments[i].ticks % WRAP, ops[i].delay, 0)
    requires forall k :: i < k < j ==> ops[k] != StopOp(e)
    requires GoesOn(program, e, |moments[i].status[e].calls|, |moments[j].status[e].calls|)
    ensures e in moments[j].chain
    ensures moments[j].status[e].calls == moments[i].status[e].calls
         + Promised(moments[i].ticks + ops[i].delay + 1, moments[j].ticks, AnswersOf(program, e),
                    |moments[i].status[e].calls|)
  {
    StaysOnTerms(program, ops, moments, i, j, e);
    KeptIs(moments[j].status[e], moments[j].ticks, AnswersOf(program, e), true);
  }

  // ----- no alarm is lost ---------------------------------------------------------------------

  /** Of an alarm that was registered with the book `book` and due at `due`, when it had got the callbacks
      `calls`: it is still waiting, as it was, or has got that callback at that tick. */
  ghost predicate NotLost(m: Moment, e: Entry, book: Book, due: nat, calls: seq<nat>) {
    && e in m.status
    && if m.ticks < due then
         && e in m.chain && m.status[e].book == book && Due(m.status[e].deadline, m.ticks) == due
         && m.status[e].calls == calls
       else calls + [due] <= m.status[e].calls
  }

  lemma ServedBySpares(program: Program, clock: bool, e: Entry, s0: Status, s: Status, t: nat, stays: bool,
                       back: bool)
    requires ServedBy(program, clock, e, s0, s, t + 1, stays, back)
    ensures if Due(s0.deadline, t) == t + 1 then s.calls == s0.calls + [t + 1]
            else stays && s.book == s0.book && s.calls == s0.calls && Due(s.deadline, t + 1) == Due(s0.deadline, t)
  {
    ServedByIs(program, clock, e, s0, s, t + 1, stays, back);
    TickExact(s0.deadline, t);
  }

  lemma StepSpares(program: Program, op: Op, a: Moment, b: Moment, e: Entry)
    requires Proper(a) && Step(program, op, a, b) && e in a.chain && e in a.status && op != StopOp(e)
    ensures NotLost(b, e, a.status[e].book, Due(a.status[e].deadline, a.ticks), a.status[e].calls)
  {
    match op
    case ClockOp(_) =>
    case StartOp(_, _) =>
    case StopOp(_) =>
      if op.oldAlarm in a.status {
        StopDone(program, op, a, b, e);
      }
    case TickOp =>
      var n: nat, left: set<Entry> :| n <= |b.chain| && left <= Members(a.chain)
        && TickStep(program, a, b, b.chain[..n], left);
      TickDone(program, a, b, b.chain[..n], left, e);
      ServedBySpares(program, a.rate > 0, e, a.status[e], b.status[e], a.ticks, e !in left, e in b.chain[..n]);
  }

  /** Over any run, whatever the requests were, no alarm is lost and no callback, unless the program stops it. */
  lemma {:induction false} NoneLost(program: Program, ops: seq<Op>, moments: seq<Moment>, n: nat, e: Entry)
    requires Traced(program, ops, moments) && n <= |ops| && e in moments[0].chain && e in moments[0].status
    requires forall k :: 0 <= k < n ==> ops[k] != StopOp(e)
    ensures NotLost(moments[n], e, moments[0].status[e].book,
                    Due(moments[0].status[e].deadline, moments[0].ticks), moments[0].status[e].calls)
  {
    if n > 0 {
      NoneLost(program, ops, moments, n - 1, e);
      LostNext(program, ops, moments, n - 1, e, moments[0].status[e].book,
               Due(moments[0].status[e].deadline, moments[0].ticks), moments[0].status[e].calls);
    }
  }

  lemma LostNext(program: Program, ops: seq<Op>, moments: seq<Moment>, k: nat, e: Entry, book: Book, due: nat,
                 calls: seq<nat>)
    requires Traced(program, ops, moments) && k < |ops| && ops[k] != StopOp(e) && e in moments[0].status
    requires NotLost(moments[k], e, book, due, calls)
    ensures NotLost(moments[k + 1], e, book, due, calls)
  {
    assert Step(program, ops[k], moments[k], moments[k + 1]) && Proper(moments[k]) && Proper(moments[k + 1]);
    StepCalls(program, ops[k], moments[k], moments[k + 1], e);
    if moments[k].ticks < due {
      StepSpares(program, ops[k], moments[k], moments[k + 1], e);
    }
  }
}
