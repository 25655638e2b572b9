/** What is on record of an alarm, against the ticks at which its callbacks were made. */
module AlarmBook {
  import opened TickClock

  /** One registration of an alarm. */
  datatype Book = Book(
    earlier: seq<nat>,     // the ticks of its callbacks before it was started
    since: nat,            // the tick it was started at
    requested: U32,        // the delay asked for then
    extra: U32,            // what the callback that started its own alarm answered
    until: nat)            // the tick it was last taken out of the list
  {
    /** The tick of the first callback asked for. */
    function First(): nat { since + requested + 1 + extra }

    /** The request was one that the code times right, and one for which the flag is right from the start. */
    predicate Sound() { Timely(since % WRAP, requested, extra) }
    predicate Flagged() { Honoured(since % WRAP, requested, extra) }
  }

  const NeverStarted := Book([], 0, 0, 0, 0)

  /** All there is to know of an alarm: `calls` has the ticks of all its callbacks. */
  datatype Status = Status(deadline: Deadline, book: Book, calls: seq<nat>)

  /** What the actions of a callback make of its own alarm: it keeps its place in the list, is out of it, or
      was started again and is in front. */
  datatype Own = InPlace | Out | Front(delay: U32)

  /** The alarm was started at tick `t`, by its own callback if `extra` is the answer of that. */
  ghost predicate Launched(s: Status, t: nat) {
    && s.book.earlier == s.calls && s.book.since == t
    && s.deadline == Launch(t % WRAP, s.book.requested, s.book.extra)
  }

  /** The registration on record in `b`, or one begun since, ended at tick `t`. */
  ghost predicate Ended(b: Book, s: Status, t: nat) {
    && s.book.until == t
    && (s.book == b.(until := t) || (s.book.earlier == s.calls && s.book.since == t))
  }

  ghost function CalledAt(s: Status, t: nat): Status {
    s.(calls := s.calls + [t])
  }

  /** What its callback leaves of an expired alarm at tick `t`, from `s0` when it was called: `own` is what the
      callback did to it and `answer` what it answered. A zero answer ends any registration. Any other renews
      the deadline of an alarm in its place, and puts off one that was started again, `back` in front. */
  ghost predicate Fired(s0: Status, s: Status, t: nat, own: Own, answer: U32, stays: bool, back: bool) {
    && s.calls == s0.calls
    && (stays <==> own.InPlace? && answer > 0)
    && (stays ==>
          !back && s.book == s0.book && s.deadline == Renewed(s0.deadline, t % WRAP, answer))
    && (back ==> Launched(s, t))
    && (own.Front? && answer > 0 ==> back && s.book.requested == own.delay && s.book.extra == answer)
    && (back && !(own.Front? && answer > 0) ==> s.book.extra == 0)
    && (!stays && !back ==> Ended(s0.book, s, t))
  }

  /** What tick `t` leaves of an alarm that was registered: one that was not due stays as it was, one that was
      has fired. */
  ghost predicate Served(s0: Status, s: Status, t: nat, own: Own, answer: U32, stays: bool, back: bool)
    requires t > 0
  {
    var cleared := s0.(deadline := Cleared(s0.deadline, t % WRAP));
    if Due(s0.deadline, t - 1) == t then Fired(CalledAt(cleared, t), s, t, own, answer, stays, back)
    else stays && !back && s == cleared
  }

  /** Where the actions of its callback have brought an alarm by tick `t`, from `s1` when it was called. */
  ghost predicate OwnState(s1: Status, s: Status, t: nat, own: Own) {
    && s.calls == s1.calls
    && match own
       case InPlace => s == s1
       case Out => Ended(s1.book, s, t)
       case Front(delay) => Launched(s, t) && s.book.requested == delay && s.book.extra == 0
  }

  lemma OwnStopped(s1: Status, s0: Status, s: Status, t: nat, own: Own)
    requires OwnState(s1, s0, t, own) && s.calls == s0.calls
    requires s.book == if own.Out? then s0.book else s0.book.(until := t)
    ensures OwnState(s1, s, t, Out)
  {
  }

  /** A zero answer. */
  lemma OwnEnded(s1: Status, s: Status, t: nat, own: Own)
    requires OwnState(s1, s, t, Out)
    ensures Fired(s1, s, t, own, 0, false, false)
  {
  }

  /** Any other answer. */
  lemma OwnPutOff(s1: Status, s0: Status, s: Status, t: nat, own: Own, period: U32)
    requires OwnState(s1, s0, t, own) && period > 0 && s.calls == s0.calls
    requires s.deadline == Renewed(s0.deadline, t % WRAP, period)
    requires s.book == if own.Front? then s0.book.(extra := period) else s0.book
    ensures Fired(s1, s, t, own, period, own.InPlace?, own.Front?)
    ensures own.Front? ==> Launched(s, t)
  {
    if own.Front? {
      PutOffLaunched(s0, s, t, period);
    }
  }

  /** An alarm that has ended may be started by a later callback of another. */
  lemma ServedBack(s0: Status, was: Status, s: Status, t: nat, own: Own, answer: U32, stays: bool)
    requires t > 0 && Served(s0, was, t, own, answer, stays, false) && !stays
    requires Launched(s, t) && s.book.extra == 0 && s.calls == was.calls
    ensures Served(s0, s, t, own, answer, false, true)
  {
  }

  /** The promise to those who start alarms, at tick `t`, when the callbacks of the alarm answer `answers`: if
      the request is one that the code honours, the callbacks of this registration were made at exactly the
      ticks promised, and while it is registered its deadline is that of the next one, with the flag right. */
  ghost predicate Kept(s: Status, t: nat, answers: Answers, registered: bool) {
    forall first: nat, k: nat | s.book.Sound() && first == s.book.First() && k == |s.book.earlier| ::
      KeptFrom(s, t, answers, registered, first, k)
  }

  ghost predicate KeptFrom(s: Status, t: nat, answers: Answers, registered: bool, first: nat, k: nat) {
    if registered then
      && OnTime(s.deadline, t) && (s.book.Flagged() ==> FlagRight(s.deadline, t))
      && k <= |s.calls| && OnSchedule(first, t, answers, k, |s.calls| - k, Due(s.deadline, t))
      && s.calls == s.book.earlier + Promised(first, t, answers, k)
    else s.calls == s.book.earlier + Promised(first, s.book.until, answers, k)
  }

  lemma KeptIs(s: Status, t: nat, answers: Answers, registered: bool)
    ensures Kept(s, t, answers, registered) <==>
              (s.book.Sound() ==> KeptFrom(s, t, answers, registered, s.book.First(), |s.book.earlier|))
  {
  }

  /** What an alarm got that is not registered does not change. */
  lemma KeptLater(s: Status, t: nat, t': nat, answers: Answers)
    requires Kept(s, t, answers, false)
    ensures Kept(s, t', answers, false)
  {
    KeptIs(s, t, answers, false);
  }

  lemma NeverKept(s: Status, t: nat, answers: Answers)
    requires s.book == NeverStarted && s.calls == []
    ensures Kept(s, t, answers, false)
  {
    KeptIs(s, t, answers, false);
  }

  lemma LaunchedKept(s: Status, t: nat, answers: Answers)
    requires Launched(s, t)
    ensures Kept(s, t, answers, true)
  {
    if s.book.Sound() {
      TimelyOnTime(t, s.book.requested, s.book.extra);
    }
    if s.book.Flagged() {
      HonouredOnTime(t, s.book.requested, s.book.extra);
    }
  }

  /** An alarm that its own callback started is put off by the answer. */
  lemma PutOffLaunched(s0: Status, s: Status, t: nat, period: U32)
    requires Launched(s0, t) && s0.book.extra == 0
    requires s.book == s0.book.(extra := period) && s.calls == s0.calls
    requires s.deadline == Renewed(s0.deadline, t % WRAP, period)
    ensures Launched(s, t)
  {
    PutOffTwice(t % WRAP, s0.book.requested, period);
  }

  /** Taking an alarm out keeps the promise as far as it was due. */
  lemma EndedKept(s0: Status, s: Status, t: nat, answers: Answers)
    requires Kept(s0, t, answers, true) && s.calls == s0.calls && s.book == s0.book.(until := t)
    ensures Kept(s, t, answers, false)
  {
    KeptIs(s0, t, answers, true);
  }

  lemma WaitedKept(s0: Status, s: Status, t: nat, answers: Answers)
    requires Kept(s0, t, answers, true) && Due(s0.deadline, t) != t + 1
    requires s == s0.(deadline := Cleared(s0.deadline, (t + 1) % WRAP))
    ensures Kept(s, t + 1, answers, true)
  {
    KeptIs(s0, t, answers, true);
    if s.book.Sound() {
      var k := |s.book.earlier|;
      TickExact(s0.deadline, t);
      ScheduleWaits(s.book.First(), t, answers, k, |s.calls| - k, Due(s0.deadline, t));
      if s.book.Flagged() {
        FlagKept(s0.deadline, t);
      }
    }
  }

  lemma FiredKept(s0: Status, s: Status, t: nat, answers: Answers)
    requires Kept(s0, t, answers, true) && Due(s0.deadline, t) == t + 1
    requires s.calls == s0.calls + [t + 1] && s.book == s0.book && answers(|s0.calls|) > 0
    requires s.deadline
          == Renewed(Cleared(s0.deadline, (t + 1) % WRAP), (t + 1) % WRAP, answers(|s0.calls|))
    ensures Kept(s, t + 1, answers, true)
  {
    KeptIs(s0, t, answers, true);
    if s.book.Sound() {
      var k := |s.book.earlier|;
      RenewedExact(s0.deadline, t, answers(|s0.calls|));
      FlagRenewed(s0.deadline, t, answers(|s0.calls|));
      ScheduleFires(s0.book.First(), t, answers, k, |s0.calls| - k);
    }
  }

  lemma FiredAndEndedKept(s0: Status, s: Status, t: nat, answers: Answers)
    requires Kept(s0, t, answers, true) && Due(s0.deadline, t) == t + 1
    requires s.calls == s0.calls + [t + 1] && Ended(s0.book, s, t + 1)
    ensures Kept(s, t + 1, answers, false)
  {
    KeptIs(s0, t, answers, true);
    if s.book == s0.book.(until := t + 1) && s.book.Sound() {
      var k := |s.book.earlier|;
      ScheduleFires(s0.book.First(), t, answers, k, |s0.calls| - k);
    }
  }

  /** The promise outlives the tick, whatever the tick does to the alarm. */
  lemma ServedKept(s0: Status, s: Status, t: nat, own: Own, answers: Answers, stays: bool, back: bool)
    requires Kept(s0, t, answers, true) && Served(s0, s, t + 1, own, answers(|s0.calls|), stays, back)
    ensures Kept(s, t + 1, answers, stays || back)
  {
    if Due(s0.deadline, t) != t + 1 {
      WaitedKept(s0, s, t, answers);
    } else if back {
      LaunchedKept(s, t + 1, answers);
    } else if stays {
      FiredKept(s0, s, t, answers);
    } else {
      FiredAndEndedKept(s0, s, t, answers);
    }
  }

  /** Between two states of all alarms, only `alarm` and those in `started` have changed, and the latter got no
      callback. */
  ghost predicate Others<E>(was: map<E, Status>, now: map<E, Status>, alarm: E, started: seq<E>) {
    && (forall e :: e in now ==> e in was)
    && forall e :: e in was && e != alarm ==>
         && e in now && now[e].calls == was[e].calls
         && (e in started ==> now[e].book.extra == 0) && (e !in started ==> now[e] == was[e])
  }

  lemma OthersBut<E>(was: map<E, Status>, s: Status, now: map<E, Status>, alarm: E, started: seq<E>)
    requires alarm in was && Others(was[alarm := s], now, alarm, started)
    ensures Others(was, now, alarm, started)
  {
  }
}
