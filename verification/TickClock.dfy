/** Alarm deadlines as the HAL keeps them: a 32-bit time that wraps and a flag that holds the alarm back
    until the tick counter has wrapped. `Due` gives the meaning of a deadline on an unbounded tick count;
    the theorems say when the wrapping arithmetic keeps it exact. */
module TickClock {

  const WRAP := 0x1_0000_0000

  type U32 = x: int | 0 <= x < WRAP

  datatype Deadline = Deadline(time: U32, rollover: bool)

  /** alt_alarm_start, with the counter at `now`. */
  function Start(now: U32, nticks: U32): Deadline {
    var time := (nticks + now + 1) % WRAP;
    Deadline(time, time < now)
  }

  /** The flag is cleared on the tick that wraps the counter. */
  function Cleared(d: Deadline, now: U32): Deadline {
    if d.rollover && now == 0 then d.(rollover := false) else d
  }

  predicate Expired(d: Deadline, now: U32) {
    d.time <= now && !d.rollover
  }

  /** The next deadline after a callback that asked for `period` more ticks. */
  function Renewed(d: Deadline, now: U32, period: U32): Deadline {
    var time := (d.time + period) % WRAP;
    Deadline(time, d.rollover || time < now)
  }

  /** The first tick after tick `t` of an unbounded count at which the deadline expires. */
  function Due(d: Deadline, t: nat): (due: nat)
    ensures t < due
  {
    var epoch := t - t % WRAP;
    if d.rollover || (t + 1) % WRAP == 0 then epoch + WRAP + d.time
    else if d.time <= t % WRAP then t + 1
    else epoch + d.time
  }

  /** A deadline that is not late: its time is the low word of the tick it is due at. */
  predicate OnTime(d: Deadline, t: nat) {
    d.time == Due(d, t) % WRAP
  }

  lemma NextWord(t: nat)
    ensures (t + 1) % WRAP == if t % WRAP == WRAP - 1 then 0 else t % WRAP + 1
  {
  }

  /** One tick of the counter: the alarm expires exactly when it is due, and otherwise stays due at the
      same tick. This needs nothing of the deadline. */
  lemma TickExact(d: Deadline, t: nat)
    ensures var d' := Cleared(d, (t + 1) % WRAP);
            && (Expired(d', (t + 1) % WRAP) <==> Due(d, t) == t + 1)
            && (!Expired(d', (t + 1) % WRAP) ==> Due(d', t + 1) == Due(d, t))
            && (!Expired(d', (t + 1) % WRAP) && OnTime(d, t) ==> OnTime(d', t + 1))
  {
    NextWord(t);
  }

  /** An alarm that fires on time and asks for `period` ticks is next due exactly that much later. */
  lemma RenewedExact(d: Deadline, t: nat, period: U32)
    requires OnTime(d, t) && Due(d, t) == t + 1 && period > 0
    ensures var next := Renewed(Cleared(d, (t + 1) % WRAP), (t + 1) % WRAP, period);
            Due(next, t + 1) == t + 1 + period && OnTime(next, t + 1)
  {
    NextWord(t);
    NextWord(t + 1);
    SmallWord(d.time + period);
    SumWord(t + 1, period);
  }

  /** A new alarm is due `nticks + 1` ticks later, with one exception: the largest request, unless the
      counter stands just before its wrap. */
  lemma StartExact(t: nat, nticks: U32)
    ensures Due(Start(t % WRAP, nticks), t) == t + nticks + 1
       <==> nticks < WRAP - 1 || t % WRAP == WRAP - 1
    ensures nticks < WRAP - 1 || t % WRAP == WRAP - 1 ==> OnTime(Start(t % WRAP, nticks), t)
  {
  }

  /** The flag says that the deadline lies beyond the next wrap of the counter. */
  predicate FlagRight(d: Deadline, t: nat) {
    d.rollover <==> t / WRAP < Due(d, t) / WRAP
  }

  /** Starting an alarm sets the flag right, but for the largest request just before the wrap. */
  lemma StartFlagIff(t: nat, nticks: U32)
    ensures FlagRight(Start(t % WRAP, nticks), t) <==> nticks < WRAP - 1 || t % WRAP < WRAP - 1
  {
    var d := Start(t % WRAP, nticks);
    WrapsPassed(t, Due(d, t));
  }

  /** A tick that does not fire keeps the flag right. */
  lemma FlagKept(d: Deadline, t: nat)
    requires OnTime(d, t) && FlagRight(d, t) && Due(d, t) != t + 1
    ensures FlagRight(Cleared(d, (t + 1) % WRAP), t + 1)
  {
    var kept := Cleared(d, (t + 1) % WRAP);
    WrapsPassed(t, Due(d, t));
    WrapsPassed(t + 1, Due(kept, t + 1));
  }

  /** A tick that fires sets it right for the next deadline. */
  lemma FlagRenewed(d: Deadline, t: nat, period: U32)
    requires OnTime(d, t) && Due(d, t) == t + 1 && period > 0
    ensures FlagRight(Renewed(Cleared(d, (t + 1) % WRAP), (t + 1) % WRAP, period), t + 1)
  {
    RenewedExact(d, t, period);
    WrapsPassed(t + 1, t + 1 + period);
  }

  /** A later tick is past a wrap exactly when it is not in the present epoch. */
  lemma WrapsPassed(t: nat, due: nat)
    requires t < due
    ensures t / WRAP < due / WRAP <==> t - t % WRAP + WRAP <= due
  {
  }

  /** The exception: started at tick 0 for 2^32-1 ticks, the alarm expires on the very next tick. */
  lemma LargestRequestFiresEarly()
    ensures Expired(Cleared(Start(0, WRAP - 1), 1), 1)
  {
  }

  /** An alarm that its own callback stops and starts again is started from the tick of the callback, and
      then put off by the answer, if that is not zero. */
  function Launch(now: U32, nticks: U32, extra: U32): Deadline {
    Renewed(Start(now, nticks), now, extra)
  }

  lemma NotPutOff(now: U32, nticks: U32)
    ensures Launch(now, nticks, 0) == Start(now, nticks)
  {
  }

  lemma PutOffTwice(now: U32, nticks: U32, extra: U32)
    ensures Renewed(Launch(now, nticks, 0), now, extra) == Launch(now, nticks, extra)
  {
    NotPutOff(now, nticks);
  }

  /** The sum stays below one turn of the counter; or the start alone passed the wrap and the sum does not
      reach the next. */
  predicate Honoured(now: U32, nticks: U32, extra: U32) {
    || nticks + 1 + extra < WRAP
    || (nticks < WRAP - 1 && WRAP <= now + nticks + 1 && now + nticks + 1 + extra < 2 * WRAP)
  }

  lemma HonouredIff(t: nat, nticks: U32, extra: U32)
    ensures Due(Launch(t % WRAP, nticks, extra), t) == t + nticks + 1 + extra <==>
              Honoured(t % WRAP, nticks, extra) || (extra == 0 && nticks == t % WRAP == WRAP - 1)
  {
    var now := t % WRAP;
    NextWord(t);
    SumTwice(nticks + now + 1, extra);
    SmallWord(nticks + now + 1 + extra);
  }

  lemma SumTwice(m: nat, n: nat)
    ensures (m % WRAP + n) % WRAP == (m + n) % WRAP
  {
    SumWord(m, n);
  }

  lemma SmallWord(n: nat)
    requires n < 3 * WRAP
    ensures n % WRAP == if n < WRAP then n else if n < 2 * WRAP then n - WRAP else n - 2 * WRAP
  {
  }

  /** Half a turn asked for twice: the alarm expires on the very next tick. */
  lemma HalfTurnTwiceFiresEarly()
    ensures Due(Launch(0, 0x8000_0000, 0x8000_0000), 0) == 1
  {
  }

  /** The requests that are due when asked for: those honoured, and the largest one just before the wrap, for
      which only the flag is late. */
  predicate Timely(now: U32, nticks: U32, extra: U32) {
    Honoured(now, nticks, extra) || (extra == 0 && nticks == now == WRAP - 1)
  }

  lemma TimelyOnTime(t: nat, nticks: U32, extra: U32)
    requires Timely(t % WRAP, nticks, extra)
    ensures Due(Launch(t % WRAP, nticks, extra), t) == t + nticks + 1 + extra
    ensures OnTime(Launch(t % WRAP, nticks, extra), t)
  {
    HonouredIff(t, nticks, extra);
    SumWord(t, nticks + 1 + extra);
  }

  lemma HonouredOnTime(t: nat, nticks: U32, extra: U32)
    requires Honoured(t % WRAP, nticks, extra)
    ensures OnTime(Launch(t % WRAP, nticks, extra), t) && FlagRight(Launch(t % WRAP, nticks, extra), t)
  {
    var d, now := Launch(t % WRAP, nticks, extra), t % WRAP;
    HonouredIff(t, nticks, extra);
    WrapsPassed(t, Due(d, t));
    SumWord(t, nticks + 1 + extra);
  }

  lemma SumWord(t: nat, n: nat)
    ensures (t + n) % WRAP == (t % WRAP + n) % WRAP
  {
    assert t + n == t / WRAP * WRAP + (t % WRAP + n);
  }

  /** What the callbacks of an alarm answer, one after the other. */
  type Answers = nat -> U32

  /** The ticks, out of the `ticks` that follow tick `t`, at which the wrapping code runs the callback, when
      its answers are those from number `k` on; a zero answer ends the alarm. */
  function Firings(d: Deadline, t: nat, ticks: nat, answers: Answers, k: nat): seq<nat>
    decreases ticks
  {
    if ticks == 0 then []
    else
      var now := (t + 1) % WRAP;
      var d' := Cleared(d, now);
      if !Expired(d', now) then Firings(d', t + 1, ticks - 1, answers, k)
      else if answers(k) == 0 then [t + 1]
      else [t + 1] + Firings(Renewed(d', now, answers(k)), t + 1, ticks - 1, answers, k + 1)
  }

  /** What the callers are promised up to tick `last`: a callback at `due`, then one after exactly each period
      asked for. */
  function Promised(due: nat, last: nat, answers: Answers, k: nat): seq<nat>
    decreases if due > last then 0 else last + 1 - due
  {
    if due > last then []
    else if answers(k) == 0 then [due]
    else [due] + Promised(due + answers(k), last, answers, k + 1)
  }

  /** A registration whose first due tick was `first` has made the callbacks due up to tick `t`, which were
      `made` in number and answered as `answers` says from number `k` on; the next is due at `next`. */
  ghost predicate OnSchedule(first: nat, t: nat, answers: Answers, k: nat, made: nat, next: nat)
    decreases made
  {
    if made == 0 then t < first == next
    else first <= t && answers(k) > 0 && OnSchedule(first + answers(k), t, answers, k + 1, made - 1, next)
  }

  /** While the next callback is not due nothing more is promised. */
  lemma {:induction false} ScheduleWaits(first: nat, t: nat, answers: Answers, k: nat, made: nat, next: nat)
    requires OnSchedule(first, t, answers, k, made, next) && next != t + 1
    ensures OnSchedule(first, t + 1, answers, k, made, next)
    ensures Promised(first, t + 1, answers, k) == Promised(first, t, answers, k)
    decreases made
  {
    if made > 0 {
      ScheduleWaits(first + answers(k), t, answers, k + 1, made - 1, next);
    }
  }

  /** When it is due, one callback more is promised; the next is due its answer later. */
  lemma {:induction false} ScheduleFires(first: nat, t: nat, answers: Answers, k: nat, made: nat)
    requires OnSchedule(first, t, answers, k, made, t + 1)
    ensures Promised(first, t + 1, answers, k) == Promised(first, t, answers, k) + [t + 1]
    ensures answers(k + made) > 0 ==>
              OnSchedule(first, t + 1, answers, k, made + 1, t + 1 + answers(k + made))
    decreases made
  {
    if made > 0 {
      ScheduleFires(first + answers(k), t, answers, k + 1, made - 1);
    }
  }

  /** Over any stretch of ticks, however often the counter wraps, an alarm that is on time fires exactly
      when promised. */
  lemma {:induction false} FiringsAsPromised(d: Deadline, t: nat, ticks: nat, answers: Answers, k: nat)
    requires OnTime(d, t)
    ensures Firings(d, t, ticks, answers, k) == Promised(Due(d, t), t + ticks, answers, k)
    decreases ticks
  {
    if ticks > 0 {
      TickExact(d, t);
      var now := (t + 1) % WRAP;
      var d' := Cleared(d, now);
      if !Expired(d', now) {
        FiringsAsPromised(d', t + 1, ticks - 1, answers, k);
      } else if answers(k) > 0 {
        RenewedExact(d, t, answers(k));
        FiringsAsPromised(Renewed(d', now, answers(k)), t + 1, ticks - 1, answers, k + 1);
      }
    }
  }

  /** Starting an alarm keeps the promise over every stretch of ticks and all answers. */
  ghost predicate StartKeepsPromise(t: nat, nticks: U32) {
    forall ticks: nat, answers: Answers ::
      Firings(Start(t % WRAP, nticks), t, ticks, answers, 0)
      == Promised(t + nticks + 1, t + ticks, answers, 0)
  }

  /** Exactly which requests are honoured. */
  lemma StartKeepsPromiseIff(t: nat, nticks: U32)
    ensures StartKeepsPromise(t, nticks) <==> nticks < WRAP - 1 || t % WRAP == WRAP - 1
  {
    var d := Start(t % WRAP, nticks);
    StartExact(t, nticks);
    if nticks < WRAP - 1 || t % WRAP == WRAP - 1 {
      forall ticks: nat, answers: Answers
        ensures Firings(d, t, ticks, answers, 0) == Promised(t + nticks + 1, t + ticks, answers, 0)
      {
        FiringsAsPromised(d, t, ticks, answers, 0);
      }
    } else {
      var never: Answers := _ => 0;
      TickExact(d, t);
      assert Firings(d, t, 1, never, 0) == [t + 1];
      assert Promised(t + nticks + 1, t + 1, never, 0) == [];
    }
  }
}
