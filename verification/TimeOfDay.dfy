/** settimeofday and gettimeofday: the wall clock is a base time plus the ticks counted since reset. The
    setter computes a 32-bit product, the getter a 64-bit one. */
module TimeOfDay {
  import opened Arithmetic

  const US := 1_000_000
  const WORD := 0x1_0000_0000
  const ENOSYS := 88
  const ENOTSUP := 134

  type U32 = x: int | 0 <= x < WORD

  datatype Time = Time(sec: int, usec: int) {
    /** Microseconds in all. */
    function Total(): int { sec * US + usec }
    predicate Proper() { 0 <= usec < US }
  }

  datatype Zone = Zone(minuteswest: int, dsttime: int)

  /** A 32-bit word stored in a signed long. */
  function ToLong(w: U32): int {
    if w >= 0x8000_0000 then w - WORD else w
  }

  /** The long that `x` becomes when it is one wrap-around away at most. */
  function Wrapped(x: int): int {
    if x < -0x8000_0000 then x + WORD else if x >= 0x8000_0000 then x - WORD else x
  }

  predicate IsLong(x: int) { -0x8000_0000 <= x < 0x8000_0000 }

  lemma LongOf(x: int)
    requires -WORD <= x < WORD
    ensures ToLong(x % WORD) == Wrapped(x)
  {
  }

  /** The microsecond parts of the tick count, as the setter and the getter compute them. */
  function SetterPart(nticks: U32, rate: U32): int
    requires rate > 0
  {
    nticks * (US / rate) % WORD % US
  }

  function GetterPart(nticks: U32, rate: U32): int
    requires rate > 0
  {
    nticks * (US / rate) % US
  }

  /** What the two loops of the getter make of a time: the same time with its microseconds in range, or the
      epoch when the microseconds are negative and there are no seconds to borrow from. */
  function Normal(t: Time): Time {
    if t.usec < 0 && t.Total() < 0 then Time(0, 0) else Time(t.Total() / US, t.Total() % US)
  }

  lemma ProperUnique(a: Time, b: Time)
    requires a.Proper() && b.Proper() && a.Total() == b.Total()
    ensures a == b
  {
  }

  class Clock {
    var nticks: U32
    var tickRate: U32
    var resetTime: Time
    var zone: Zone
    var errno: int

    /** settimeofday. */
    method SetTimeOfDay(t: Time, tz: Zone) returns (rc: int)
      requires IsLong(t.usec)
      modifies this`resetTime, this`zone, this`errno
      ensures tickRate == 0 ==> rc == -1 && errno == ENOSYS && resetTime == old(resetTime) && zone == old(zone)
      ensures tickRate > 0 ==>
                && rc == 0 && errno == old(errno) && zone == tz
                && resetTime == Time(t.sec - nticks / tickRate, Wrapped(t.usec - SetterPart(nticks, tickRate)))
    {
      if tickRate > 0 {
        LongOf(t.usec - SetterPart(nticks, tickRate));
        resetTime := Time(t.sec - nticks / tickRate,
                          ToLong((t.usec - nticks * (US / tickRate) % WORD % US) % WORD));
        zone := tz;
        return 0;
      }
      errno := ENOSYS;
      return -1;
    }

    /** The two normalisation loops: they end, and keep the total unless it is negative. */
    method Normalise(raw: Time) returns (t: Time)
      ensures t == Normal(raw)
    {
      var sec, usec := raw.sec, raw.usec;
      while usec < 0
        invariant sec * US + usec == raw.Total()
        invariant raw.usec >= 0 ==> sec == raw.sec && usec == raw.usec
        invariant raw.usec < 0 ==> usec < US && (usec >= 0 ==> sec >= 0)
        decreases -usec
      {
        if sec <= 0 {
          return Time(0, 0);
        }
        sec := sec - 1;
        usec := usec + US;
      }
      while usec >= US
        invariant sec * US + usec == raw.Total() && 0 <= usec
        decreases usec
      {
        sec := sec + 1;
        usec := usec - US;
      }
      t := Time(sec, usec);
      ProperUnique(t, Time(raw.Total() / US, raw.Total() % US));
    }

    /** gettimeofday. */
    method GetTimeOfDay() returns (rc: int, t: Time, tz: Zone)
      requires IsLong(resetTime.usec)
      ensures tickRate == 0 ==> rc == -ENOTSUP
      ensures tickRate > 0 ==>
                && rc == 0 && tz == zone
                && t == Normal(Time(resetTime.sec + nticks / tickRate,
                                    Wrapped(resetTime.usec + GetterPart(nticks, tickRate))))
    {
      t, tz := Time(0, 0), zone;
      if tickRate == 0 {
        return -ENOTSUP, t, tz;
      }
      LongOf(resetTime.usec + GetterPart(nticks, tickRate));
      t := Normalise(Time(resetTime.sec + nticks / tickRate,
                          ToLong((resetTime.usec + nticks * (US / tickRate) % US) % WORD)));
      return 0, t, tz;
    }
  }

  // ----- setting and getting undo each other --------------------------------------------------

  /** What the getter finds before normalising, at tick `n1`, after `t` was set at tick `n0`. */
  function Found(t: Time, n0: U32, n1: U32, rate: U32): Time
    requires rate > 0
  {
    Time(t.sec - n0 / rate + n1 / rate, t.usec - SetterPart(n0, rate) + GetterPart(n1, rate))
  }

  /** What it should find: the time set, plus the ticks since then. */
  function Expected(t: Time, n0: U32, n1: U32, rate: U32): Time
    requires rate > 0
  {
    var total := t.Total() + (n1 - n0) * (US / rate);
    Time(total / US, total % US)
  }

  predicate RoundTrip(t: Time, n0: U32, n1: U32, rate: U32)
    requires rate > 0
  {
    Normal(Found(t, n0, n1, rate)) == Expected(t, n0, n1, rate)
  }

  /** The 32-bit product of the setter is harmless: the multiple of 2^32 it loses is one of 10^6 too. */
  predicate ProductHarmless(n: U32, rate: U32)
    requires rate > 0
  {
    n * (US / rate) / WORD % 15625 == 0
  }

  /** 2^32 times `h` is a multiple of 10^6 exactly when `h` is one of 5^6. */
  lemma LostMultiple(h: nat)
    ensures h * WORD % US == 0 <==> h % 15625 == 0
  {
    if h % 15625 == 0 {
      var m := h / 15625;
      assert h * WORD == m * 67108864 * 64 * 15625;
    }
    if h * WORD % US == 0 {
      var k := h * WORD / US;
      assert h * 67108864 == 15625 * k;
      Bezout(h, k);
    }
  }

  /** 15625 and 2^26 have no factor in common. */
  lemma Bezout(h: int, k: int)
    requires h * 67108864 == 15625 * k
    ensures h % 15625 == 0
  {
    var m := k * 12659 - h * 54369991;
    assert h == 15625 * m;
  }

  /** Cutting a product to a word changes its remainder exactly when the part cut off has one. */
  lemma CutRemainder(x: nat)
    ensures x % WORD % US == x % US <==> x / WORD % 15625 == 0
  {
    LostMultiple(x / WORD);
    SumRemainder(x / WORD * WORD, x % WORD);
  }

  lemma SumRemainder(m: nat, l: nat)
    ensures (m + l) % US == l % US <==> m % US == 0
  {
    var a, b, c := m / US, l / US, (m + l) / US;
    assert (m + l) - (m % US) - (l % US) == (a + b) * US;
    if m % US == 0 {
      assert (m + l) == (a + b) * US + l % US;
    }
    if (m + l) % US == l % US {
      assert m == (c - b) * US;
    }
  }

  lemma SetterExactIff(n: U32, rate: U32)
    requires rate > 0
    ensures SetterPart(n, rate) == GetterPart(n, rate) <==> ProductHarmless(n, rate)
  {
    NonNegative(n, US / rate);
    CutRemainder(n * (US / rate));
  }

  /** When the rate divides a million, ticks convert to time without rounding. */
  lemma GetterExact(n: U32, rate: U32)
    requires rate > 0 && US % rate == 0
    ensures n / rate * US + GetterPart(n, rate) == n * (US / rate)
  {
    var q, a, b := US / rate, n / rate, n % rate;
    DivMod(n, rate);
    DivMod(US, rate);
    assert n * q == a * US + b * q by {
      assert (a * rate + b) * q == a * (q * rate) + b * q by { Distribute(a, rate, b, q); }
    }
    assert b * q < US by {
      MulMono(b + 1, rate, q);
      assert (b + 1) * q == b * q + q && rate * q == US;
    }
    DivOfSum(a, US, b * q);
  }

  lemma Distribute(a: int, r: int, b: int, q: int)
    ensures (a * r + b) * q == a * (q * r) + b * q
  {
    assert a * r * q == a * (q * r);
  }

  /** The time found is off by exactly what the setter's product lost. */
  lemma FoundTotal(t: Time, n0: U32, n1: U32, rate: U32)
    requires rate > 0 && (US % rate == 0 || n0 == n1)
    ensures Found(t, n0, n1, rate).Total()
         == t.Total() + (n1 - n0) * (US / rate) + GetterPart(n0, rate) - SetterPart(n0, rate)
  {
    if US % rate == 0 {
      GetterExact(n0, rate);
      GetterExact(n1, rate);
      var q := US / rate;
      assert (n1 - n0) * q == n1 * q - n0 * q;
    }
  }

  /** The getter finds a time before the epoch whose microseconds it cannot borrow, and gives the epoch. */
  predicate Clamped(t: Time, n0: U32, n1: U32, rate: U32)
    requires rate > 0
  {
    && t.usec + GetterPart(n1, rate) < SetterPart(n0, rate)
    && t.Total() + (n1 - n0) * (US / rate) + GetterPart(n0, rate) < SetterPart(n0, rate)
  }

  /** For every proper time, every pair of ticks and every rate that divides a million (any rate at all when
      no tick has passed), a get after a set finds the time set plus the ticks since exactly when the setter's
      product lost nothing; unless the getter clamps, when it does so just at the epoch. */
  lemma RoundTripIff(t: Time, n0: U32, n1: U32, rate: U32)
    requires t.Proper() && rate > 0 && n0 <= n1 && (US % rate == 0 || n0 == n1)
    ensures RoundTrip(t, n0, n1, rate) <==>
              if Clamped(t, n0, n1, rate) then t.Total() + (n1 - n0) * (US / rate) == 0
              else ProductHarmless(n0, rate)
    ensures t.Total() + (n1 - n0) * (US / rate) >= 0 && ProductHarmless(n0, rate) ==>
              RoundTrip(t, n0, n1, rate)
  {
    FoundTotal(t, n0, n1, rate);
    SetterExactIff(n0, rate);
    var found, total := Found(t, n0, n1, rate), t.Total() + (n1 - n0) * (US / rate);
    assert found.Total() == total + GetterPart(n0, rate) - SetterPart(n0, rate);
    if found.usec < 0 && found.Total() < 0 {
      assert RoundTrip(t, n0, n1, rate) <==> total == 0;
    } else {
      assert Normal(found).Total() == found.Total() && Expected(t, n0, n1, rate).Total() == total;
    }
  }

  /** Nothing is lost while the ticks counted make less than 2^32 microseconds. */
  lemma HarmlessBelowWrap(n: U32, rate: U32)
    requires rate > 0 && n * (US / rate) < WORD
    ensures ProductHarmless(n, rate)
  {
    NonNegative(n, US / rate);
    var x: nat := n * (US / rate);
    assert x / WORD == 0;
  }

  /** At 1000 ticks a second, 71 minutes after reset, setting the clock and reading it at once gives back
      another time. */
  lemma OverflowSpoilsRoundTrip()
    ensures !RoundTrip(Time(1_000_000_000, 0), 4_294_968, 4_294_968, 1000)
  {
  }

  /** The two calls in a row, with `elapsed` ticks between them. */
  method SetThenGet(c: Clock, t: Time, tz: Zone, elapsed: nat) returns (now: Time)
    requires t.Proper() && c.tickRate > 0 && c.nticks + elapsed < WORD
    requires US % c.tickRate == 0 || elapsed == 0
    modifies c
    ensures c.tickRate == old(c.tickRate) && c.nticks == old(c.nticks) + elapsed && c.zone == tz
    ensures now == Expected(t, old(c.nticks), c.nticks, c.tickRate) <==>
              if Clamped(t, old(c.nticks), c.nticks, c.tickRate) then t.Total() + elapsed * (US / c.tickRate) == 0
              else ProductHarmless(old(c.nticks), c.tickRate)
  {
    var n0 := c.nticks;
    var rc := c.SetTimeOfDay(t, tz);
    c.nticks := c.nticks + elapsed;
    var tz';
    rc, now, tz' := c.GetTimeOfDay();
    RoundTripIff(t, n0, c.nticks, c.tickRate);
  }
}
