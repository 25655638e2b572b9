/** The interrupt-driven JTAG UART driver: two rings shared, without locks, by main-line code
    (Read, Write, Close, Ioctl) and by an interrupt routine plus a one-second alarm.

    Main-line methods follow the C control flow. Between any two accesses to a shared field they call
    `Interference`, which lets any number of interrupt routines, alarm ticks and host actions happen.

    A C loop may spin for ever, so every run is observed up to an arbitrary point; a call that has not
    finished by then is `Running`, and the driver is still `Valid` at that point. */
module JtagUart {
  import Ring
  import opened Wire

  const INT_MAX := 0x7FFF_FFFF
  const EIO := 5
  const EWOULDBLOCK := 11
  const ENOTTY := 25

  datatype Progress = Done | Stuck {
    predicate IsFailure() { Stuck? }
    function PropagateFailure<T>(): Call<T>
      requires Stuck?
    {
      Running
    }
  }

  /** What is known of a call: it returned a value, or it was still going when the observation ended. */
  datatype Call<+T> = Returned(value: T) | Running {
    predicate IsFailure() { Running? }
    function PropagateFailure<U>(): Call<U>
      requires Running?
    {
      Running
    }
    function Extract(): T
      requires Returned?
    {
      value
    }
  }

  datatype Request = SetTimeout | GetConnected | OtherRequest

  /** How many bytes write may copy in one go, from the tx_in and tx_out values it saw: it may fill
      slots up to the end of the buffer, and must leave one slot unused. */
  function FreeRun(size: nat, outIx: nat, inIx: nat): (n: nat)
    requires outIx < size && inIx < size
    ensures n <= size - 1 - Ring.Count(size, outIx, inIx) && inIx + n <= size
    ensures n == 0 <==> Ring.Count(size, outIx, inIx) == size - 1
  {
    if inIx < outIx then outIx - 1 - inIx
    else if outIx > 0 then size - inIx
    else size - 1 - inIx
  }

  /** How many bytes read may copy in one go, from the rx_in and rx_out values it saw. */
  function ReadyRun(size: nat, outIx: nat, inIx: nat): (n: nat)
    requires outIx < size && inIx < size
    ensures n <= Ring.Count(size, outIx, inIx) && outIx + n <= size
    ensures n == 0 <==> inIx == outIx
  {
    if inIx >= outIx then inIx - outIx else size - outIx
  }

  /** Between `before` and `now` some first bytes of `src` were accepted, and nothing else. */
  ghost predicate TookPrefix(before: seq<Byte>, now: seq<Byte>, src: seq<Byte>) {
    before <= now <= before + src
  }

  lemma TakenBlock(base: seq<Byte>, mid: seq<Byte>, now: seq<Byte>, src: seq<Byte>, s: nat, p: nat, q: nat)
    requires s <= p <= q <= |src| && mid == base + src[s..p] && now == mid + src[p..q]
    ensures now == base + src[s..q]
  {
    assert src[s..p] + src[p..q] == src[s..q];
  }

  lemma TakenPrefix(base: seq<Byte>, mid: seq<Byte>, now: seq<Byte>, src: seq<Byte>, p: nat)
    requires p <= |src| && mid == base + src[..p] && TookPrefix(mid, now, src[p..])
    ensures TookPrefix(base, now, src)
  {
    assert src[..p] + src[p..] == src;
    assert mid + src[p..] == base + src;
  }

  /** `got` was taken from the front of a stream that started with `waiting`. */
  ghost predicate Next(got: seq<Byte>, waiting: seq<Byte>) {
    got <= waiting || waiting <= got
  }

  lemma NextBytes(before: Traffic, now: Traffic, delivered: seq<Byte>, got: seq<Byte>, waiting: seq<Byte>,
                  left: seq<Byte>)
    requires before.hostSent == delivered + waiting && now.hostSent == delivered + got + left
    requires Grew(before, now)
    ensures Next(got, waiting)
  {
    GrewIff(before, now);
    assert now.hostSent[|delivered|..] == got + left;
    assert before.hostSent[|delivered|..] == waiting <= got + left;
  }

  class Uart {
    const size: nat           // length of each ring
    const txBuf: array<Byte>
    const rxBuf: array<Byte>
    const txDepth: nat        // capacity of the device's transmit FIFO
    const alarmRunning: bool  // whether the one-second alarm could be registered

    var timeout: nat
    var hostInactive: nat
    var irqEnable: Enable
    var rxIn: nat
    var rxOut: nat
    var txIn: nat
    var txOut: nat
    var dev: Device

    // abstract contents of the rings
    ghost var txQueue: seq<Byte>
    ghost var rxQueue: seq<Byte>

    // histories
    ghost var arrived: seq<Byte>    // popped from the device by the interrupt routine
    ghost var delivered: seq<Byte>  // handed to callers of Read
    ghost var accepted: seq<Byte>   // taken over by Write
    ghost var sent: seq<Byte>       // written to the device by the interrupt routine

    ghost var greeted: nat          // how often the alarm has seen the host

    // where main-line code is between two related updates
    ghost var kickDue: bool         // Write moved tx_in and has yet to set WE
    ghost var rearmDue: bool        // Read moved rx_out and has yet to set RE

    ghost function Seen(): Traffic
      reads this`dev, this`arrived, this`sent, this`greeted
    {
      Traffic(arrived, sent, dev.hostSent, dev.hostGot, greeted)
    }

    /** The device loses nothing, is not overfilled, and the alarm saw the host only when it had raised AC. */
    ghost predicate DeviceOk()
      reads this`dev, this`arrived, this`sent, this`greeted
    {
      && Lossless(dev, arrived, sent) && |dev.txFifo| <= txDepth
      && greeted <= dev.raised && (dev.ac ==> greeted < dev.raised)
    }

    ghost function Seeing(): Glance
      reads this`dev, this`arrived, this`sent, this`greeted, this`txQueue, this`rxQueue, this`irqEnable
    {
      Glance(Seen(), txQueue, rxQueue, irqEnable, dev.ravail,
             if |dev.txFifo| <= txDepth then txDepth - |dev.txFifo| else 0)
    }

    /** The transmit ring: its queue is what Write took over and the device has not got, and while it
        is not empty the transmit interrupt is armed, or Write is about to arm it. */
    ghost predicate TxSide()
      reads this`txIn, this`txOut, this`txQueue, this`accepted, this`sent, this`irqEnable, this`kickDue, txBuf
    {
      && 2 <= size == txBuf.Length && Ring.Holds(txBuf, txOut, txIn, txQueue)
      && accepted == sent + txQueue
      && (txQueue != [] ==> irqEnable.we || kickDue)
    }

    /** The receive ring: its queue is what left the device and no reader has got, and reception is on,
        or there is something to read, or Read is about to turn it on. */
    ghost predicate RxSide()
      reads this`rxIn, this`rxOut, this`rxQueue, this`arrived, this`delivered, this`irqEnable, this`rearmDue, rxBuf
    {
      && 2 <= size == rxBuf.Length && Ring.Holds(rxBuf, rxOut, rxIn, rxQueue)
      && arrived == delivered + rxQueue
      && (irqEnable.re || rxQueue != [] || rearmDue)
    }

    /** The inactivity count stays below the two sentinels, and never moves without the alarm. */
    ghost predicate HostClock()
      reads this`timeout, this`hostInactive
    {
      && hostInactive <= INT_MAX - 2 && 2 <= timeout <= INT_MAX
      && (!alarmRunning ==> timeout == INT_MAX && hostInactive == 0)
    }

    /** Holds wherever main-line code can be interrupted, hence in every state it can be observed in. */
    ghost predicate Valid()
      reads this, txBuf, rxBuf
    {
      && txBuf != rxBuf && DeviceOk() && TxSide() && RxSide() && HostClock()
      && dev.enable == irqEnable
    }

    /** Besides, every history starts with what it was in `past`, the traffic seen at some earlier moment:
        nothing that had moved by then was lost or rewritten since. */
    ghost predicate ValidSince(past: Traffic)
      reads this, txBuf, rxBuf
    {
      Valid() && Grew(past, Seen())
    }

    /** At an earlier moment, when `sent0` had been sent, tx_out was `out` and the ring was full; nothing was
        accepted since. */
    ghost predicate FullAt(out: nat, sent0: seq<Byte>)
      requires out < size
      reads this`accepted, this`sent, this`txIn
    {
      && sent0 <= accepted && |sent0| <= |sent|
      && txIn < size && |accepted| - |sent0| == size - 1 == Ring.Count(size, out, txIn)
    }

    /** At an earlier moment, when `arrived0` had arrived, rx_in was `inIx`; nothing was delivered since. */
    ghost predicate SeenAt(inIx: nat, arrived0: seq<Byte>)
      requires inIx < size
      reads this`arrived, this`delivered, this`rxOut
    {
      rxOut < size && arrived0 <= arrived && |arrived0| - |delivered| == Ring.Count(size, rxOut, inIx)
    }

    /** The host was taken for inactive at some time since `past`: the count has been at the timeout and, if it is
        no longer, the alarm has seen the host since. */
    ghost predicate GivenUp(past: Traffic)
      reads this`hostInactive, this`timeout, this`greeted
    {
      hostInactive >= timeout || greeted > past.greeted
    }

    // ----- the device and the host ------------------------------------------------------------

    /** Any number of host actions: push an RX byte, drain a TX byte, raise AC. */
    method HostActs(ghost past: Traffic)
      requires DeviceOk() && Grew(past, Seen())
      modifies this`dev
      ensures DeviceOk() && Grew(past, Seen())
      ensures dev.enable == old(dev.enable) && dev.ravail == old(dev.ravail) && |dev.txFifo| <= |old(dev.txFifo)|
      ensures old(dev.hostSent) <= dev.hostSent && (old(dev.ac) ==> dev.ac)
    {
      var acts :| 0 <= acts;
      for i := 0 to acts
        invariant DeviceOk() && Grew(past, Seen())
        invariant dev.enable == old(dev.enable) && dev.ravail == old(dev.ravail) && |dev.txFifo| <= |old(dev.txFifo)|
        invariant old(dev.hostSent) <= dev.hostSent && (old(dev.ac) ==> dev.ac)
      {
        if
        case true =>
          var b: Byte := *;
          dev := dev.(rxFifo := dev.rxFifo + [b], hostSent := dev.hostSent + [b]);
        case dev.txFifo != [] =>
          dev := dev.(hostGot := dev.hostGot + [dev.txFifo[0]], txFifo := dev.txFifo[1..]);
        case true =>
          dev := dev.(ac := true, raised := dev.raised + 1);
      }
    }

    /** Reading DATA pops one byte. RAVAIL is zero when RVALID is. */
    method ReadData() returns (rvalid: bool, b: Byte, ravail: bool)
      requires DeviceOk()
      modifies this`dev, this`arrived
      ensures DeviceOk() && dev.enable == old(dev.enable) && dev.txFifo == old(dev.txFifo)
      ensures rvalid ==> arrived == old(arrived) + [b]
      ensures !rvalid ==> arrived == old(arrived) == dev.hostSent && !ravail
      ensures dev.ravail == ravail && dev.raised == old(dev.raised)
      ensures dev.hostSent == old(dev.hostSent) && dev.hostGot == old(dev.hostGot)
    {
      rvalid := dev.rxFifo != [];
      if rvalid {
        b, ravail := dev.rxFifo[0], *;
        dev, arrived := dev.(rxFifo := dev.rxFifo[1..]), arrived + [b];
      } else {
        b, ravail := 0, false;
      }
      dev := dev.(ravail := ravail);
    }

    // ----- the interrupt routine --------------------------------------------------------------

    /** One turn of the receive loop. It reports whether the loop goes on, and the last RAVAIL. */
    method ReceiveOne(ghost past: Traffic, avail: bool) returns (again: bool, ravail: bool)
      requires DeviceOk() && Grew(past, Seen()) && RxSide()
      modifies this`dev, this`arrived, this`rxIn, this`rxQueue, rxBuf
      ensures DeviceOk() && Grew(past, Seen()) && RxSide()
      ensures dev.enable == old(dev.enable) && |dev.txFifo| <= |old(dev.txFifo)|
      ensures old(dev.hostSent) <= dev.hostSent
      ensures if again then old(rxQueue) <= rxQueue && |rxQueue| == |old(rxQueue)| + 1
              else rxQueue == old(rxQueue) && (|rxQueue| == size - 1 || arrived == dev.hostSent)
      ensures !again && ravail ==> |rxQueue| == size - 1
      ensures ravail == if |old(rxQueue)| == size - 1 then avail else dev.ravail
      ensures !again && |old(rxQueue)| == size - 1 ==> dev.ravail == old(dev.ravail)
    {
      var next := (rxIn + 1) % size;
      Ring.FullTest(size, rxOut, rxIn);
      if next == rxOut { return false, avail; }
      HostActs(past);
      ghost var seen := Seen();
      var rvalid, b, more := ReadData();
      if !rvalid { return false, more; }
      ArrivedMore(past, seen, b);
      assert Seen() == seen.(arrived := seen.arrived + [b]);
      Store(past, b);
      return true, more;
    }

    /** Stores the byte just popped, then moves rx_in past it. */
    method Store(ghost past: Traffic, b: Byte)
      requires DeviceOk() && Grew(past, Seen()) && arrived == delivered + rxQueue + [b]
      requires 2 <= size == rxBuf.Length && Ring.Holds(rxBuf, rxOut, rxIn, rxQueue) && |rxQueue| < size - 1
      modifies this`dev, this`rxIn, this`rxQueue, rxBuf
      ensures DeviceOk() && Grew(past, Seen()) && RxSide() && rxQueue == old(rxQueue) + [b]
      ensures dev.enable == old(dev.enable) && dev.ravail == old(dev.ravail) && |dev.txFifo| <= |old(dev.txFifo)|
      ensures old(dev.hostSent) <= dev.hostSent
    {
      HostActs(past);
      rxBuf[rxIn] := b;
      Ring.PushBlock(rxBuf, rxOut, rxIn, 1, rxQueue, [b]);
      HostActs(past);
      rxIn, rxQueue := (rxIn + 1) % size, rxQueue + [b];
    }

    /** The receive half: moves bytes into the ring until it is full or the FIFO is empty. */
    method IsrReceive(ghost past: Traffic)
      requires ValidSince(past)
      modifies this`dev, this`arrived, this`rxIn, this`rxQueue, this`irqEnable, rxBuf
      ensures ValidSince(past)
      ensures Received(size, old(Seeing()), Seeing())
      ensures old(rxQueue) <= rxQueue && |dev.txFifo| <= |old(dev.txFifo)|
      ensures |rxQueue| == size - 1 || old(dev.hostSent) <= arrived
    {
      var again, more := true, true;
      while again
        invariant DeviceOk() && Grew(past, Seen()) && RxSide() && dev.enable == irqEnable == old(irqEnable)
        invariant old(dev.hostSent) <= dev.hostSent
        invariant old(rxQueue) <= rxQueue && |dev.txFifo| <= |old(dev.txFifo)|
        invariant more == (|old(rxQueue)| == size - 1 || (again && rxQueue == old(rxQueue)) || dev.ravail)
        invariant !again ==> |rxQueue| == size - 1 || (arrived == dev.hostSent && !more)
        decreases again, size - |rxQueue|
      {
        again, more := ReceiveOne(past, more);
      }
      if more { DisarmReceive(past); }
    }

    /** Bytes are left in the device and the ring is full: reception goes off. */
    method DisarmReceive(ghost past: Traffic)
      requires DeviceOk() && Grew(past, Seen()) && RxSide() && rxQueue != []
      modifies this`dev, this`irqEnable
      ensures DeviceOk() && Grew(past, Seen()) && RxSide() && dev.enable == irqEnable == old(irqEnable).(re := false)
      ensures |dev.txFifo| <= |old(dev.txFifo)| && dev.ravail == old(dev.ravail)
      ensures old(dev.hostSent) <= dev.hostSent
    {
      HostActs(past);
      irqEnable := irqEnable.(re := false);
      HostActs(past);
      dev := dev.(enable := irqEnable);
    }

    /** Writing DATA hands a byte to the device, which has space for it. */
    method WriteData(ghost past: Traffic, b: Byte)
      requires DeviceOk() && Grew(past, Seen()) && |dev.txFifo| < txDepth
      modifies this`dev, this`sent
      ensures DeviceOk() && Grew(past, Seen()) && sent == old(sent) + [b]
      ensures dev.enable == old(dev.enable) && dev.ravail == old(dev.ravail) && |dev.txFifo| == |old(dev.txFifo)| + 1
    {
      SentMore(past, Seen(), b);
      dev, sent := dev.(txFifo := dev.txFifo + [b]), sent + [b];
    }

    /** Hands the oldest queued byte to the device, then moves tx_out past it. */
    method SendOne(ghost past: Traffic)
      requires DeviceOk() && Grew(past, Seen()) && TxSide() && txQueue != [] && |dev.txFifo| < txDepth
      modifies this`dev, this`sent, this`txOut, this`txQueue
      ensures DeviceOk() && Grew(past, Seen()) && TxSide()
      ensures dev.enable == old(dev.enable) && dev.ravail == old(dev.ravail) && |dev.txFifo| <= |old(dev.txFifo)| + 1
      ensures sent == old(sent) + [old(txQueue)[0]]
    {
      Ring.PopBlock(txBuf, txOut, txIn, 1, txQueue);
      WriteData(past, txBuf[txOut]);
      HostActs(past);
      txOut, txQueue := (txOut + 1) % size, txQueue[1..];
    }

    /** The transmit half, given the WSPACE value of the control word. */
    method IsrTransmit(ghost past: Traffic, wspace: nat)
      requires ValidSince(past) && |dev.txFifo| + wspace <= txDepth
      modifies this`dev, this`sent, this`txOut, this`txQueue, this`irqEnable
      ensures ValidSince(past)
      ensures Transmitted(wspace, old(Seeing()), Seeing())
    {
      var space := wspace;
      while space > 0 && txOut != txIn
        invariant DeviceOk() && Grew(past, Seen()) && TxSide() && dev.enable == irqEnable == old(irqEnable)
        invariant |dev.txFifo| + space <= txDepth && 0 <= space <= wspace
        invariant |sent| == |old(sent)| + wspace - space && dev.ravail == old(dev.ravail)
      {
        HostActs(past);
        SendOne(past);
        space := space - 1;
      }
      if space > 0 { DisarmTransmit(past); }
      SentOff(old(sent), old(txQueue), sent, txQueue, Min(wspace, |old(txQueue)|));
    }

    /** The ring has run empty: the transmit interrupt goes off. */
    method DisarmTransmit(ghost past: Traffic)
      requires DeviceOk() && Grew(past, Seen()) && TxSide() && txQueue == []
      modifies this`dev, this`irqEnable
      ensures DeviceOk() && Grew(past, Seen()) && TxSide() && dev.enable == irqEnable == old(irqEnable).(we := false)
      ensures dev.ravail == old(dev.ravail)
    {
      HostActs(past);
      irqEnable := irqEnable.(we := false);
      HostActs(past);
      dev := dev.(enable := irqEnable);
    }

    /** Reads the control word. RI and WI may be anything, WSPACE is the space in the device's FIFO. */
    method ReadControl(ghost past: Traffic) returns (word: Control)
      requires ValidSince(past)
      modifies this`dev
      ensures ValidSince(past) && Idle(old(Seeing()), Seeing()) && old(dev.hostSent) <= dev.hostSent
      ensures word.wspace == Seeing().space && |dev.txFifo| + word.wspace == txDepth
    {
      HostActs(past);
      var ri, wi: bool := *, *;
      word := Control(ri, wi, txDepth - |dev.txFifo|);
    }

    /** One pass of the interrupt routine. It reports the control word read. */
    method IsrPass(ghost past: Traffic) returns (word: Control)
      requires ValidSince(past)
      modifies this`dev, this`arrived, this`rxIn, this`rxQueue, this`irqEnable, rxBuf
      modifies this`sent, this`txOut, this`txQueue
      ensures ValidSince(past)
      ensures Pass(size, word, old(Seeing()), Seeing())
    {
      ghost var a := Seeing();
      word := ReadControl(past);
      ghost var b := Seeing();
      if word.ri { IsrReceive(past); }
      ghost var c := Seeing();
      if word.wi { IsrTransmit(past, word.wspace); }
      PassIs(size, word, a, b, c, Seeing());
    }

    /** The interrupt routine. It returns when a control word shows neither RI nor WI. */
    method Isr(ghost past: Traffic) returns (r: Progress, ghost words: seq<Control>, ghost glances: seq<Glance>)
      requires ValidSince(past)
      modifies this`dev, this`arrived, this`rxIn, this`rxQueue, this`irqEnable, rxBuf
      modifies this`sent, this`txOut, this`txQueue
      ensures ValidSince(past)
      ensures |old(sent)| <= |sent| && old(rxQueue) <= rxQueue
      ensures Passes(size, words, glances, r.Done?)
      ensures glances[0] == old(Seeing()) && glances[|words|] == Seeing()
    {
      words, glances := [], [Seeing()];
      var passes :| 0 <= passes;
      for i := 0 to passes
        invariant ValidSince(past)
        invariant |old(sent)| <= |sent| && old(rxQueue) <= rxQueue
        invariant Passes(size, words, glances, false)
        invariant glances[0] == old(Seeing()) && glances[|words|] == Seeing()
      {
        var word := IsrPass(past);
        PassesNext(size, words, glances, word, Seeing());
        words, glances := words + [word], glances + [Seeing()];
        if !word.ri && !word.wi { return Done, words, glances; }
      }
      return Stuck, words, glances;
    }

    /** The alarm callback: AC from the host resets the inactivity count, silence advances it. */
    method TimeoutAlarm(ghost past: Traffic)
      requires ValidSince(past) && alarmRunning
      modifies this`dev, this`hostInactive, this`greeted
      ensures ValidSince(past)
      ensures old(greeted) <= greeted <= dev.raised
      ensures hostInactive == if greeted > old(greeted) then 0
                              else if old(hostInactive) < INT_MAX - 2 then old(hostInactive) + 1
                              else old(hostInactive)
      ensures old(dev.ac) ==> hostInactive == 0
    {
      HostActs(past);
      var ac := dev.ac;
      HostActs(past);
      if ac {
        Greet(past);
      } else if hostInactive < INT_MAX - 2 {
        hostInactive := hostInactive + 1;
      }
    }

    /** The host has been seen: AC is cleared, and the count with it. */
    method Greet(ghost past: Traffic)
      requires ValidSince(past) && alarmRunning && dev.ac
      modifies this`dev, this`hostInactive, this`greeted
      ensures ValidSince(past) && hostInactive == 0 && greeted == old(greeted) + 1
    {
      GreetedMore(past, Seen(), greeted + 1);
      dev, greeted := dev.(enable := irqEnable, ac := false), greeted + 1;
      HostActs(past);
      hostInactive := 0;
    }

    /** What can happen between two main-line accesses to shared fields, one thing. */
    method Event(ghost past: Traffic) returns (r: Progress)
      requires ValidSince(past)
      modifies this`dev, this`arrived, this`rxIn, this`rxQueue, this`irqEnable, rxBuf
      modifies this`sent, this`txOut, this`txQueue, this`hostInactive, this`greeted
      ensures ValidSince(past)
      ensures |old(sent)| <= |sent| && old(rxQueue) <= rxQueue
      ensures greeted >= old(greeted) && (greeted == old(greeted) ==> hostInactive >= old(hostInactive))
    {
      r := Done;
      if
      case true => HostActs(past);
      case true =>
        ghost var words, glances;
        r, words, glances := Isr(past);
      case alarmRunning => TimeoutAlarm(past);
    }

    /** Any number of such things. */
    method Interference(ghost past: Traffic) returns (r: Progress)
      requires ValidSince(past)
      modifies this`dev, this`arrived, this`rxIn, this`rxQueue, this`irqEnable, rxBuf
      modifies this`sent, this`txOut, this`txQueue, this`hostInactive, this`greeted
      ensures ValidSince(past)
      ensures |old(sent)| <= |sent| && old(rxQueue) <= rxQueue
      ensures greeted >= old(greeted) && (greeted == old(greeted) ==> hostInactive >= old(hostInactive))
    {
      var events :| 0 <= events;
      for i := 0 to events
        invariant ValidSince(past)
        invariant |old(sent)| <= |sent| && old(rxQueue) <= rxQueue
        invariant greeted >= old(greeted) && (greeted == old(greeted) ==> hostInactive >= old(hostInactive))
      {
        r := Event(past);
        if r.Stuck? { return; }
      }
      return Done;
    }

    // ----- write ------------------------------------------------------------------------------

    /** Copies a block into free slots from tx_in on, one byte at a time. */
    method CopyIn(ghost past: Traffic, inIx: nat, block: seq<Byte>) returns (r: Progress)
      requires ValidSince(past) && inIx == txIn && inIx + |block| <= size && |txQueue| + |block| < size
      modifies this`dev, this`arrived, this`rxIn, this`rxQueue, this`irqEnable, rxBuf
      modifies this`sent, this`txOut, this`txQueue, this`hostInactive, this`greeted, txBuf
      ensures ValidSince(past)
      ensures |old(sent)| <= |sent|
      ensures r.Done? ==> txBuf[inIx..inIx + |block|] == block
    {
      for i := 0 to |block|
        invariant ValidSince(past) && |old(sent)| <= |sent|
        invariant txBuf[inIx..inIx + i] == block[..i]
      {
        r := Interference(past);
        if r.Stuck? { return; }
        assert |txQueue| + i < size - 1;
        Ring.FreeSlot(size, txOut, txIn, i);
        txBuf[inIx + i] := block[i];
      }
      return Done;
    }

    /** The store to tx_in that hands a copied block over to the interrupt routine. */
    method Publish(block: seq<Byte>)
      requires Valid() && txIn + |block| <= size && |txQueue| + |block| < size
      requires txBuf[txIn..txIn + |block|] == block
      modifies this`txIn, this`txQueue, this`accepted, this`kickDue
      ensures Valid() && kickDue
      ensures accepted == old(accepted) + block
    {
      Ring.PushBlock(txBuf, txOut, txIn, |block|, txQueue, block);
      txIn, txQueue := (txIn + |block|) % size, txQueue + block;
      accepted, kickDue := accepted + block, true;
    }

    /** Copies a block into the ring, then publishes it. */
    method PutBlock(ghost past: Traffic, inIx: nat, block: seq<Byte>) returns (r: Progress)
      requires ValidSince(past) && inIx == txIn && inIx + |block| <= size && |txQueue| + |block| < size
      modifies this`dev, this`arrived, this`rxIn, this`rxQueue, this`irqEnable, rxBuf
      modifies this`sent, this`txOut, this`txQueue, this`hostInactive, this`greeted, txBuf
      modifies this`txIn, this`accepted, this`kickDue
      ensures ValidSince(past) && |old(sent)| <= |sent|
      ensures accepted == if r.Done? then old(accepted) + block else old(accepted)
    {
      r := CopyIn(past, inIx, block);
      if r.Stuck? { return; }
      r := Interference(past);
      if r.Stuck? { return; }
      Publish(block);
    }

    /** Reads tx_in, then tx_out. The room computed from the two is at least there. */
    method SnapshotTx(ghost past: Traffic) returns (r: Call<(nat, nat)>)
      requires ValidSince(past)
      modifies this`dev, this`arrived, this`rxIn, this`rxQueue, this`irqEnable, rxBuf
      modifies this`sent, this`txOut, this`txQueue, this`hostInactive, this`greeted
      ensures ValidSince(past) && |old(sent)| <= |sent|
      ensures r.Returned? ==>
                var (inIx, out) := r.value;
                && inIx == txIn && out == txOut && out < size && inIx < size
                && |txQueue| == Ring.Count(size, out, inIx)
                && (|txQueue| == size - 1 <==> out == (txIn + 1) % size)
    {
      r := Running;
      :- Interference(past);
      var inIx := txIn;
      :- Interference(past);
      Ring.FullTest(size, txOut, inIx);
      return Returned((inIx, txOut));
    }

    /** One turn of the inner loop of write. Returns how many bytes it took from the front of `rest`
        and the tx_out value it saw, when `sent0` had been sent; it takes none exactly when it saw the ring full. */
    method FillOnce(ghost past: Traffic, rest: seq<Byte>)
      returns (r: Call<(nat, nat)>, ghost sent0: seq<Byte>)
      requires ValidSince(past) && rest != []
      modifies this`dev, this`arrived, this`rxIn, this`rxQueue, this`irqEnable, rxBuf
      modifies this`sent, this`txOut, this`txQueue, this`hostInactive, this`greeted, txBuf
      modifies this`txIn, this`accepted, this`kickDue
      ensures ValidSince(past) && |old(sent)| <= |sent|
      ensures r.Running? ==> accepted == old(accepted)
      ensures r.Returned? ==> var (n, out) := r.value;
                              && n <= |rest| && accepted == old(accepted) + rest[..n]
                              && out < size && |old(sent)| <= |sent0|
                              && |old(accepted)| == |sent0| + Ring.Count(size, out, old(txIn))
                              && (n == 0 <==> out == (old(txIn) + 1) % size)
                              && (n == 0 ==> sent0 == sent && FullAt(out, sent0))
    {
      sent0 := sent;
      var seen :- SnapshotTx(past);
      var (inIx, out) := seen;
      sent0 := sent;
      var n := FreeRun(size, out, inIx);
      if n == 0 {
        return Returned((0, out)), sent0;
      }
      if n > |rest| { n := |rest|; }
      :- PutBlock(past, inIx, rest[..n]);
      return Returned((n, out)), sent0;
    }

    /** The inner loop of write: moves bytes into the ring until they are all in or the ring is full.
        Returns how far it got and the tx_out value it last saw, when `sent0` had been sent. */
    method Fill(ghost past: Traffic, src: seq<Byte>, start: nat)
      returns (r: Call<(nat, nat)>, ghost sent0: seq<Byte>)
      requires ValidSince(past) && start <= |src|
      modifies this`dev, this`arrived, this`rxIn, this`rxQueue, this`irqEnable, rxBuf
      modifies this`sent, this`txOut, this`txQueue, this`hostInactive, this`greeted, txBuf
      modifies this`txIn, this`accepted, this`kickDue
      ensures ValidSince(past) && |old(sent)| <= |sent|
      ensures r.Running? ==> TookPrefix(old(accepted), accepted, src[start..])
      ensures r.Returned? ==>
                var (pos, out) := r.value;
                && start <= pos <= |src| && accepted == old(accepted) + src[start..pos]
                && (pos < |src| ==> out < size && sent0 == sent && FullAt(out, sent0))
    {
      var pos, out := start, 0;
      sent0 := [];
      while pos < |src|
        invariant ValidSince(past) && |old(sent)| <= |sent|
        invariant start <= pos <= |src| && accepted == old(accepted) + src[start..pos]
      {
        ghost var before, mid := pos, accepted;
        var taken;
        taken, sent0 :- FillOnce(past, src[pos..]);
        pos, out := pos + taken.0, taken.1;
        TakenBlock(old(accepted), mid, accepted, src, start, before, pos);
        if taken.0 == 0 { break; }
      }
      return Returned((pos, out)), sent0;
    }

    /** The critical section that kicks the transmitter: no interrupt comes between its accesses. */
    method Kick(ghost past: Traffic)
      requires ValidSince(past)
      modifies this`dev, this`irqEnable, this`kickDue
      ensures ValidSince(past) && !kickDue && irqEnable == old(irqEnable).(we := true)
    {
      HostActs(past);
      irqEnable := irqEnable.(we := true);
      HostActs(past);
      dev, kickDue := dev.(enable := irqEnable), false;
    }

    /** The test on the tx_out value seen when `sent0` had been sent: it holds exactly as long as no byte has
        been sent since. */
    method StillFull(out: nat, ghost sent0: seq<Byte>) returns (same: bool)
      requires Valid() && out < size && FullAt(out, sent0)
      ensures same <==> sent == sent0
    {
      Ring.StaleIndexExact(size, out, txOut, txIn);
      same := out == txOut;
    }

    /** Waits until a byte has been sent since tx_out was seen, or the host is taken for inactive. */
    method SpinForSpace(ghost past: Traffic, out: nat, ghost sent0: seq<Byte>) returns (r: Progress)
      requires ValidSince(past) && out < size && FullAt(out, sent0)
      modifies this`dev, this`arrived, this`rxIn, this`rxQueue, this`irqEnable, rxBuf
      modifies this`sent, this`txOut, this`txQueue, this`hostInactive, this`greeted
      ensures ValidSince(past) && |old(sent)| <= |sent|
      ensures r.Done? ==> sent != sent0 || hostInactive >= timeout
    {
      var patience :| 0 <= patience;
      for i := 0 to patience
        invariant ValidSince(past) && |old(sent)| <= |sent| && FullAt(out, sent0)
      {
        r := Interference(past);
        if r.Stuck? { return; }
        var full := StillFull(out, sent0);
        if !full { return Done; }
        r := Interference(past);
        if r.Stuck? { return; }
        if hostInactive >= timeout { return Done; }
      }
      return Stuck;
    }

    /** The wait for space, and the test after it: whether the host is silent. It ends only once a byte was sent or
        the host taken for inactive. */
    method AwaitSpace(ghost past: Traffic, out: nat, ghost sent0: seq<Byte>) returns (r: Call<bool>)
      requires ValidSince(past) && out < size && FullAt(out, sent0)
      modifies this`dev, this`arrived, this`rxIn, this`rxQueue, this`irqEnable, rxBuf
      modifies this`sent, this`txOut, this`txQueue, this`hostInactive, this`greeted
      ensures ValidSince(past) && |old(sent)| <= |sent|
      ensures r.Returned? ==> r.value == (hostInactive > 0)
      ensures r.Returned? ==> |sent0| < |sent| || GivenUp(past)
    {
      r := Running;
      :- SpinForSpace(past, out, sent0);
      :- Interference(past);
      return Returned(hostInactive > 0);
    }

    /** The end of a pass of write: interrupts may still come before the kick. */
    method StartSending(ghost past: Traffic) returns (r: Progress)
      requires ValidSince(past)
      modifies this`dev, this`arrived, this`rxIn, this`rxQueue, this`irqEnable, rxBuf
      modifies this`sent, this`txOut, this`txQueue, this`hostInactive, this`greeted, this`kickDue
      ensures ValidSince(past) && |old(sent)| <= |sent|
      ensures r.Done? ==> !kickDue && irqEnable.we
    {
      r := Interference(past);
      if r.Done? { Kick(past); }
    }

    /** One pass of the outer loop of write, up to and including the kick. A pass that starts with room
        in the ring takes at least one byte. */
    method FillAndKick(ghost past: Traffic, src: seq<Byte>, start: nat)
      returns (r: Call<(nat, nat)>, ghost sent0: seq<Byte>)
      requires ValidSince(past) && start <= |src|
      modifies this`dev, this`arrived, this`rxIn, this`rxQueue, this`irqEnable, rxBuf
      modifies this`sent, this`txOut, this`txQueue, this`hostInactive, this`greeted, txBuf
      modifies this`txIn, this`accepted, this`kickDue
      ensures ValidSince(past) && |old(sent)| <= |sent|
      ensures r.Running? ==> TookPrefix(old(accepted), accepted, src[start..])
      ensures r.Returned? ==>
                var (pos, out) := r.value;
                && start <= pos <= |src| && accepted == old(accepted) + src[start..pos]
                && (pos < |src| ==> out < size && FullAt(out, sent0))
                && (pos < |src| ==> pos - start >= size - 1 - |old(txQueue)|)
                && !kickDue && irqEnable.we && dev.enable.we
    {
      var filled;
      filled, sent0 :- Fill(past, src, start);
      :- StartSending(past);
      return Returned(filled), sent0;
    }

    /** One pass of the outer loop of write with the wait that follows it. It reports whether write is
        done: everything is in, or the caller does not wait, or the host was seen inactive. If it waited,
        there is room now, or the host was taken for inactive. */
    method WriteTurn(ghost past: Traffic, src: seq<Byte>, start: nat, nonblock: bool) returns (r: Call<(nat, bool)>)
      requires ValidSince(past) && start <= |src|
      modifies this`dev, this`arrived, this`rxIn, this`rxQueue, this`irqEnable, rxBuf
      modifies this`sent, this`txOut, this`txQueue, this`hostInactive, this`greeted, txBuf
      modifies this`txIn, this`accepted, this`kickDue
      ensures ValidSince(past) && |old(sent)| <= |sent|
      ensures r.Running? ==> TookPrefix(old(accepted), accepted, src[start..])
      ensures r.Returned? ==>
                var (pos, done) := r.value;
                && start <= pos <= |src| && accepted == old(accepted) + src[start..pos]
                && (pos < |src| ==> pos - start >= size - 1 - |old(txQueue)|)
                && !kickDue
                && (done <==> pos == |src| || nonblock || hostInactive > 0)
                && (pos < |src| && !nonblock ==> |txQueue| < size - 1 || GivenUp(past))
    {
      ghost var sent0;
      var pass;
      pass, sent0 :- FillAndKick(past, src, start);
      var (pos, out) := pass;
      if pos == |src| || nonblock { return Returned((pos, true)); }
      var inactive :- AwaitSpace(past, out, sent0);
      return Returned((pos, inactive));
    }

    /** write(): on return the first `k` bytes were accepted, or none when the result is negative. A short
        count means the room there was at the call is used up, and in blocking mode that the host was
        seen inactive. Whatever is left in the ring has its interrupt armed. */
    method Write(src: seq<Byte>, nonblock: bool) returns (r: Call<int>)
      requires Valid() && !kickDue
      modifies this`dev, this`arrived, this`rxIn, this`rxQueue, this`irqEnable, rxBuf
      modifies this`sent, this`txOut, this`txQueue, this`hostInactive, this`greeted, txBuf
      modifies this`txIn, this`accepted, this`kickDue
      ensures Valid() && Grew(old(Seen()), Seen())
      ensures r.Running? ==> TookPrefix(old(accepted), accepted, src)
      ensures r.Returned? ==>
                var k := if r.value > 0 then r.value else 0;
                && k <= |src| && accepted == old(accepted) + src[..k]
                && (k == 0 ==> r.value == if nonblock then -EWOULDBLOCK else -EIO)
                && (k < |src| ==> k >= size - 1 - |old(txQueue)|)
                && (k < |src| && !nonblock ==> hostInactive > 0 && (|txQueue| < size - 1 || GivenUp(old(Seen()))))
                && !kickDue && (txQueue != [] ==> irqEnable.we && dev.enable.we)
    {
      ghost var past := Seen();
      var pos: nat, done := 0, false;
      ghost var first := true;
      var patience :| 0 <= patience;
      while !done
        invariant ValidSince(past) && |old(sent)| <= |sent| && pos <= |src|
        invariant accepted == old(accepted) + src[..pos]
        invariant first ==> pos == 0 && !done && |txQueue| == |old(txQueue)| && !kickDue
        invariant !first ==> !kickDue && (pos < |src| ==> pos >= size - 1 - |old(txQueue)|)
        invariant !first && pos < |src| && !nonblock ==> |txQueue| < size - 1 || GivenUp(past)
        invariant !first ==> (done <==> pos == |src| || nonblock || hostInactive > 0)
        decreases patience
      {
        if patience <= 0 { return Running; }
        patience := patience - 1;
        ghost var before, mid := pos, accepted;
        var turn := WriteTurn(past, src, pos, nonblock);
        if turn.Running? {
          TakenPrefix(old(accepted), mid, accepted, src, before);
          return Running;
        }
        pos, done := turn.value.0, turn.value.1;
        first := false;
        TakenBlock(old(accepted), mid, accepted, src, 0, before, pos);
      }
      return Returned(if pos > 0 then pos else if nonblock then -EWOULDBLOCK else -EIO);
    }

    // ----- read -------------------------------------------------------------------------------

    /** Copies the `n` oldest bytes of the ring out, one at a time, while the interrupt routine may be
        adding more. */
    method CopyOut(ghost past: Traffic, buffer: array<Byte>, pos: nat, n: nat) returns (r: Progress)
      requires ValidSince(past) && buffer != rxBuf && buffer != txBuf
      requires pos + n <= buffer.Length && n <= |rxQueue| && rxOut + n <= size
      modifies this`dev, this`arrived, this`rxIn, this`rxQueue, this`irqEnable, rxBuf
      modifies this`sent, this`txOut, this`txQueue, this`hostInactive, this`greeted, buffer
      ensures ValidSince(past) && |old(sent)| <= |sent| && old(rxQueue) <= rxQueue
      ensures buffer[..pos] == old(buffer[..pos])
      ensures r.Done? ==> buffer[pos..pos + n] == old(rxQueue)[..n]
    {
      for i := 0 to n
        invariant ValidSince(past) && |old(sent)| <= |sent| && old(rxQueue) <= rxQueue
        invariant buffer[..pos] == old(buffer[..pos])
        invariant buffer[pos..pos + i] == old(rxQueue)[..i]
      {
        r := Interference(past);
        if r.Stuck? { return; }
        assert rxQueue[i] == rxBuf[rxOut + i];
        buffer[pos + i] := rxBuf[rxOut + i];
      }
      return Done;
    }

    /** The store to rx_out that gives the slots of the copied bytes back to the interrupt routine. */
    method Retire(n: nat)
      requires Valid() && 0 < n <= |rxQueue| && rxOut + n <= size
      modifies this`rxOut, this`rxQueue, this`delivered, this`rearmDue
      ensures Valid() && rearmDue
      ensures delivered == old(delivered) + old(rxQueue)[..n]
    {
      Ring.PopBlock(rxBuf, rxOut, rxIn, n, rxQueue);
      rxOut, rxQueue := (rxOut + n) % size, rxQueue[n..];
      delivered, rearmDue := delivered + old(rxQueue)[..n], true;
    }

    /** Copies a block out of the ring, then retires it. */
    method TakeBlock(ghost past: Traffic, buffer: array<Byte>, pos: nat, n: nat) returns (r: Progress)
      requires ValidSince(past) && buffer != rxBuf && buffer != txBuf
      requires pos + n <= buffer.Length && 0 < n <= |rxQueue| && rxOut + n <= size
      modifies this`dev, this`arrived, this`rxIn, this`rxQueue, this`irqEnable, rxBuf
      modifies this`sent, this`txOut, this`txQueue, this`hostInactive, this`greeted, buffer
      modifies this`rxOut, this`delivered, this`rearmDue
      ensures ValidSince(past) && |old(sent)| <= |sent| && |old(arrived)| <= |arrived|
      ensures buffer[..pos] == old(buffer[..pos])
      ensures r.Done? ==> buffer[pos..pos + n] == old(rxQueue)[..n]
      ensures r.Done? ==> delivered == old(delivered) + buffer[pos..pos + n] && rearmDue
      ensures r.Stuck? ==> delivered == old(delivered)
    {
      r := CopyOut(past, buffer, pos, n);
      if r.Stuck? { return; }
      r := Interference(past);
      if r.Stuck? { return; }
      Retire(n);
    }

    /** Reads rx_in, when `arrived0` had arrived, then rx_out. The bytes between the two are there to take;
        equal indices mean that everything that had arrived was delivered. */
    method SnapshotRx(ghost past: Traffic) returns (r: Call<(nat, nat)>, ghost arrived0: seq<Byte>)
      requires ValidSince(past)
      modifies this`dev, this`arrived, this`rxIn, this`rxQueue, this`irqEnable, rxBuf
      modifies this`sent, this`txOut, this`txQueue, this`hostInactive, this`greeted
      ensures ValidSince(past) && |old(sent)| <= |sent| && |old(arrived)| <= |arrived|
      ensures r.Returned? ==>
                var (inIx, out) := r.value;
                && inIx < size && out == rxOut && SeenAt(inIx, arrived0)
                && |old(arrived)| <= |arrived0| && old(rxQueue) <= rxQueue
    {
      arrived0 := arrived;
      :- Interference(past);
      var inIx := rxIn;
      arrived0 := arrived;
      :- Interference(past);
      return Returned((inIx, rxOut)), arrived0;
    }

    /** One turn of the inner loop of read. Returns how many bytes it took and the rx_in value it saw,
        when `arrived0` had arrived; it takes none exactly when it saw the ring empty. */
    method DrainOnce(ghost past: Traffic, buffer: array<Byte>, pos: nat, room: nat)
      returns (r: Call<(nat, nat)>, ghost arrived0: seq<Byte>)
      requires ValidSince(past) && buffer != rxBuf && buffer != txBuf && 0 < room && pos + room <= buffer.Length
      modifies this`dev, this`arrived, this`rxIn, this`rxQueue, this`irqEnable, rxBuf
      modifies this`sent, this`txOut, this`txQueue, this`hostInactive, this`greeted, buffer
      modifies this`rxOut, this`delivered, this`rearmDue
      ensures ValidSince(past) && |old(sent)| <= |sent| && |old(arrived)| <= |arrived|
      ensures buffer[..pos] == old(buffer[..pos])
      ensures r.Running? ==> delivered == old(delivered)
      ensures r.Returned? ==>
                var (n, inIx) := r.value;
                && n <= room && delivered == old(delivered) + buffer[pos..pos + n]
                && inIx < size && |old(arrived)| <= |arrived0|
                && (n == 0 <==> inIx == old(rxOut))
                && (n == 0 ==> inIx == rxOut && SeenAt(inIx, arrived0))
                && rearmDue == if n > 0 then true else old(rearmDue)
    {
      var seen;
      seen, arrived0 :- SnapshotRx(past);
      var (inIx, out) := seen;
      var n := ReadyRun(size, out, inIx);
      if n == 0 { return Returned((0, inIx)), arrived0; }
      if n > room { n := room; }
      :- TakeBlock(past, buffer, pos, n);
      return Returned((n, inIx)), arrived0;
    }

    /** The inner loop of read: takes bytes until the caller's buffer is full or the ring was seen
        empty, when `arrived0` had arrived. */
    method Drain(ghost past: Traffic, buffer: array<Byte>, space: nat)
      returns (r: Call<(nat, nat)>, ghost arrived0: seq<Byte>)
      requires ValidSince(past) && buffer != rxBuf && buffer != txBuf && 0 < space <= buffer.Length
      modifies this`dev, this`arrived, this`rxIn, this`rxQueue, this`irqEnable, rxBuf
      modifies this`sent, this`txOut, this`txQueue, this`hostInactive, this`greeted, buffer
      modifies this`rxOut, this`delivered, this`rearmDue
      ensures ValidSince(past) && |old(sent)| <= |sent| && |old(arrived)| <= |arrived|
      ensures old(delivered) <= delivered
      ensures r.Returned? ==>
                var (n, inIx) := r.value;
                && n <= space && delivered == old(delivered) + buffer[..n]
                && (n < space ==> |old(arrived)| <= |delivered|)
                && (n == 0 ==> inIx == rxOut && SeenAt(inIx, arrived0) && rearmDue == old(rearmDue))
    {
      var pos, inIx := 0, 0;
      arrived0 := [];
      while pos < space
        invariant ValidSince(past) && |old(sent)| <= |sent| && |old(arrived)| <= |arrived|
        invariant pos <= space && delivered == old(delivered) + buffer[..pos]
        invariant pos == 0 ==> rearmDue == old(rearmDue)
      {
        ghost var mid := delivered;
        var taken;
        taken, arrived0 :- DrainOnce(past, buffer, pos, space - pos);
        TakenBlock(old(delivered), mid, delivered, buffer[..], 0, pos, pos + taken.0);
        pos, inIx := pos + taken.0, taken.1;
        if taken.0 == 0 { break; }
      }
      return Returned((pos, inIx)), arrived0;
    }

    /** The test on the rx_in value seen when `arrived0` had arrived: it holds exactly as long as no byte has
        arrived since. */
    method StillEmpty(inIx: nat, ghost arrived0: seq<Byte>) returns (same: bool)
      requires Valid() && inIx < size && SeenAt(inIx, arrived0)
      ensures same <==> arrived == arrived0
    {
      Ring.StaleIndexExact(size, inIx, rxIn, rxOut);
      same := inIx == rxIn;
    }

    /** Waits until a byte has arrived since rx_in was seen, or the host is taken for inactive. */
    method SpinForData(ghost past: Traffic, inIx: nat, ghost arrived0: seq<Byte>) returns (r: Progress)
      requires ValidSince(past) && inIx < size && SeenAt(inIx, arrived0)
      modifies this`dev, this`arrived, this`rxIn, this`rxQueue, this`irqEnable, rxBuf
      modifies this`sent, this`txOut, this`txQueue, this`hostInactive, this`greeted
      ensures ValidSince(past) && |old(sent)| <= |sent| && old(rxQueue) <= rxQueue
      ensures arrived0 <= arrived && (r.Done? ==> arrived != arrived0 || hostInactive >= timeout)
    {
      var patience :| 0 <= patience;
      for i := 0 to patience
        invariant ValidSince(past) && |old(sent)| <= |sent| && old(rxQueue) <= rxQueue && SeenAt(inIx, arrived0)
      {
        r := Interference(past);
        if r.Stuck? { return; }
        var empty := StillEmpty(inIx, arrived0);
        if !empty { return Done; }
        r := Interference(past);
        if r.Stuck? { return; }
        if hostInactive >= timeout { return Done; }
      }
      return Stuck;
    }

    /** The wait for data, and the test after it: whether no byte has arrived since rx_in was seen. */
    method AwaitData(ghost past: Traffic, inIx: nat, ghost arrived0: seq<Byte>) returns (r: Call<bool>)
      requires ValidSince(past) && inIx < size && SeenAt(inIx, arrived0)
      modifies this`dev, this`arrived, this`rxIn, this`rxQueue, this`irqEnable, rxBuf
      modifies this`sent, this`txOut, this`txQueue, this`hostInactive, this`greeted
      ensures ValidSince(past) && |old(sent)| <= |sent| && |old(arrived)| <= |arrived|
      ensures r == Returned(true) ==> GivenUp(past)
      ensures r.Returned? ==> arrived0 <= arrived && r.value == (arrived == arrived0)
    {
      r := Running;
      :- SpinForData(past, inIx, arrived0);
      :- Interference(past);
      var empty := StillEmpty(inIx, arrived0);
      return Returned(empty);
    }

    /** The critical section that turns reception back on. */
    method Rearm(ghost past: Traffic)
      requires ValidSince(past)
      modifies this`dev, this`irqEnable, this`rearmDue
      ensures ValidSince(past) && !rearmDue && irqEnable == old(irqEnable).(re := true)
    {
      HostActs(past);
      irqEnable := irqEnable.(re := true);
      HostActs(past);
      dev, rearmDue := dev.(enable := irqEnable), false;
    }

    /** The end of a read that took something. */
    method Resume(ghost past: Traffic, n: nat) returns (r: Call<int>)
      requires ValidSince(past)
      modifies this`dev, this`arrived, this`rxIn, this`rxQueue, this`irqEnable, rxBuf
      modifies this`sent, this`txOut, this`txQueue, this`hostInactive, this`greeted, this`rearmDue
      ensures ValidSince(past) && |old(sent)| <= |sent| && |old(arrived)| <= |arrived|
      ensures r.Returned? ==> r == Returned(n) && !rearmDue && irqEnable.re
    {
      r := Running;
      :- Interference(past);
      Rearm(past);
      return Returned(n);
    }

    /** One turn of the outer loop of read. It reports whether read is done. */
    method ReadTurn(ghost past: Traffic, buffer: array<Byte>, space: nat, nonblock: bool) returns (r: Call<(nat, bool)>)
      requires ValidSince(past) && buffer != rxBuf && buffer != txBuf && 0 < space <= buffer.Length && !rearmDue
      modifies this`dev, this`arrived, this`rxIn, this`rxQueue, this`irqEnable, rxBuf
      modifies this`sent, this`txOut, this`txQueue, this`hostInactive, this`greeted, buffer
      modifies this`rxOut, this`delivered, this`rearmDue
      ensures ValidSince(past) && |old(sent)| <= |sent| && |old(arrived)| <= |arrived|
      ensures old(delivered) <= delivered
      ensures r.Returned? ==>
                var (n, done) := r.value;
                && n <= space && delivered == old(delivered) + buffer[..n]
                && (n < space ==> |old(arrived)| <= |delivered|)
                && (n == 0 ==> !rearmDue) && (n > 0 || nonblock ==> done)
                && (n == 0 && !nonblock ==> done == (rxQueue == []) && (done ==> GivenUp(past)))
    {
      ghost var arrived0;
      var drained;
      drained, arrived0 :- Drain(past, buffer, space);
      var (n, inIx) := drained;
      if n > 0 || nonblock { return Returned((n, true)); }
      var empty :- AwaitData(past, inIx, arrived0);
      return Returned((n, empty));
    }

    /** The outer loop of read, up to the point where reception may have to go back on. */
    method Collect(ghost past: Traffic, buffer: array<Byte>, space: nat, nonblock: bool) returns (r: Call<nat>)
      requires ValidSince(past) && buffer != rxBuf && buffer != txBuf && space <= buffer.Length && !rearmDue
      modifies this`dev, this`arrived, this`rxIn, this`rxQueue, this`irqEnable, rxBuf
      modifies this`sent, this`txOut, this`txQueue, this`hostInactive, this`greeted, buffer
      modifies this`rxOut, this`delivered, this`rearmDue
      ensures ValidSince(past) && |old(sent)| <= |sent|
      ensures old(delivered) <= delivered
      ensures r.Returned? ==>
                var n := r.value;
                && n <= space && delivered == old(delivered) + buffer[..n]
                && (n < space ==> |old(arrived)| <= |delivered|)
                && (n == 0 ==> !rearmDue)
                && (n == 0 && space > 0 && !nonblock ==> rxQueue == [] && GivenUp(past))
    {
      if space == 0 { return Returned(0); }
      var patience :| 0 <= patience;
      for i := 0 to patience
        invariant ValidSince(past) && |old(sent)| <= |sent| && |old(arrived)| <= |arrived|
        invariant delivered == old(delivered) && !rearmDue
      {
        var turn :- ReadTurn(past, buffer, space, nonblock);
        if turn.1 { return Returned(turn.0); }
      }
      return Running;
    }

    /** read(): a positive result k means the next k bytes of the stream are in the buffer, first those that
        were waiting in the ring and the device, a negative one that none were taken. A short count means all
        that had arrived at the call was taken; a blocking read gives up only with the ring empty and the host
        taken for inactive. Reception is on after a read that took something. */
    method Read(buffer: array<Byte>, space: nat, nonblock: bool) returns (r: Call<int>)
      requires Valid() && buffer != rxBuf && buffer != txBuf && space <= buffer.Length && !rearmDue
      modifies this`dev, this`arrived, this`rxIn, this`rxQueue, this`irqEnable, rxBuf
      modifies this`sent, this`txOut, this`txQueue, this`hostInactive, this`greeted, buffer
      modifies this`rxOut, this`delivered, this`rearmDue
      ensures Valid() && Grew(old(Seen()), Seen())
      ensures old(delivered) <= delivered
      ensures r.Returned? ==>
                var k := if r.value > 0 then r.value else 0;
                && k <= space && delivered == old(delivered) + buffer[..k]
                && Next(buffer[..k], old(rxQueue + dev.rxFifo))
                && (k == 0 ==> r.value == if nonblock then -EWOULDBLOCK else -EIO)
                && (k < space ==> |old(arrived)| <= |delivered|)
                && (k == 0 && space > 0 && !nonblock ==> rxQueue == [] && GivenUp(old(Seen())))
                && (k > 0 ==> irqEnable.re && dev.enable.re)
                && !rearmDue && (irqEnable.re || rxQueue != [])
    {
      ghost var past := Seen();
      var n :- Collect(past, buffer, space, nonblock);
      if n > 0 {
        r := Resume(past, n);
        if r.Running? { return; }
        NextBytes(past, Seen(), old(delivered), buffer[..n], old(rxQueue + dev.rxFifo), rxQueue + dev.rxFifo);
        return;
      }
      return Returned(if nonblock then -EWOULDBLOCK else -EIO);
    }

    // ----- close, ioctl and start-up ----------------------------------------------------------

    /** close(): zero means that every accepted byte has reached the device, or that the host was taken for
        inactive at the exit test, and anything else that some had not. Without a running alarm only the first
        can be. */
    method Close(nonblock: bool) returns (r: Call<int>)
      requires Valid()
      modifies this`dev, this`arrived, this`rxIn, this`rxQueue, this`irqEnable, rxBuf
      modifies this`sent, this`txOut, this`txQueue, this`hostInactive, this`greeted
      ensures Valid() && Grew(old(Seen()), Seen())
      ensures r.Returned? ==> r.value == 0 || (nonblock && r.value == -EWOULDBLOCK)
      ensures r.Returned? && r.value == 0 ==> accepted == sent || hostInactive >= timeout
      ensures r.Returned? && r.value == 0 && (!alarmRunning || timeout >= INT_MAX - 1) ==> accepted == sent
      ensures r.Returned? && r.value != 0 ==> hostInactive < timeout && |accepted| > |old(sent)|
    {
      ghost var past := Seen();
      var patience :| 0 <= patience;
      for i := 0 to patience
        invariant ValidSince(past) && |old(sent)| <= |sent|
      {
        var quiet := Interference(past);
        if quiet.Stuck? { return Running; }
        if txOut == txIn { return Returned(0); }
        :- Interference(past);
        if hostInactive >= timeout { return Returned(0); }
        if nonblock { return Returned(-EWOULDBLOCK); }
      }
      return Running;
    }

    /** ioctl(): INT_MAX in `timeout` records that no alarm runs; it disables both requests for good, and
        no request can store it. */
    method Ioctl(req: Request, arg: int) returns (r: Call<(int, int)>)
      requires Valid()
      modifies this`dev, this`arrived, this`rxIn, this`rxQueue, this`irqEnable, rxBuf
      modifies this`sent, this`txOut, this`txQueue, this`hostInactive, this`greeted, this`timeout
      ensures Valid() && Grew(old(Seen()), Seen())
      ensures timeout == INT_MAX <==> old(timeout) == INT_MAX
      ensures !req.SetTimeout? ==> timeout == old(timeout)
      ensures r.Returned? ==>
                var (rc, value) := r.value;
                && rc == (if req.OtherRequest? || timeout == INT_MAX then -ENOTTY else 0)
                && (rc == 0 && req.SetTimeout? ==>
                      2 <= timeout && (if 2 <= arg < INT_MAX then timeout == arg else timeout == INT_MAX - 1))
                && (rc == 0 && req.GetConnected? ==> value == if hostInactive < timeout then 1 else 0)
                && (rc != 0 || !req.GetConnected? ==> value == arg)
    {
      ghost var past := Seen();
      var rc, value := -ENOTTY, arg;
      :- Interference(past);
      match req {
        case SetTimeout =>
          if timeout != INT_MAX {
            rc := 0;
            :- Interference(past);
            timeout := if arg >= 2 && arg < INT_MAX then arg else INT_MAX - 1;
          }
        case GetConnected =>
          if timeout != INT_MAX {
            rc := 0;
            :- Interference(past);
            value := if hostInactive < timeout then 1 else 0;
          }
        case OtherRequest =>
      }
      return Returned((rc, value));
    }

    /** State definition and init(): the rings are empty and reception is on. `pending` is what the host
        has already sent. */
    constructor (bufLen: nat, fifoDepth: nat, pending: seq<Byte>, alarmStarted: bool)
      requires 2 <= bufLen
      ensures Valid() && !kickDue && !rearmDue && fresh(txBuf) && fresh(rxBuf)
      ensures size == bufLen && alarmRunning == alarmStarted
      ensures dev.hostSent == pending && delivered == [] && accepted == [] && dev.hostGot == []
      ensures irqEnable == Enable(true, false)
      ensures timeout == if alarmStarted then 10 else INT_MAX
    {
      size, txDepth, alarmRunning := bufLen, fifoDepth, alarmStarted;
      txBuf, rxBuf := new Byte[bufLen], new Byte[bufLen];
      rxIn, rxOut, txIn, txOut := 0, 0, 0, 0;
      irqEnable := Enable(true, false);
      dev := Device(Enable(true, false), false, false, pending, [], pending, [], 0);
      hostInactive := 0;
      timeout := if alarmStarted then 10 else INT_MAX;
      txQueue, rxQueue, arrived, delivered, accepted, sent := [], [], [], [], [], [];
      kickDue, rearmDue, greeted := false, false, 0;
    }
  }

  /** What an observer between two calls can know: what callers gave and got, what is under way in each
      direction, and the traffic. */
  datatype Moment = Moment(accepted: seq<Byte>, delivered: seq<Byte>, outbound: seq<Byte>, inbound: seq<Byte>,
                           traffic: Traffic, inactive: nat, timeout: nat)
  {
    predicate Silent() { inactive >= timeout }
  }

  ghost function Now(u: Uart): Moment
    reads u
  {
    Moment(u.accepted, u.delivered, u.dev.txFifo + u.txQueue, u.rxQueue + u.dev.rxFifo, u.Seen(), u.hostInactive,
           u.timeout)
  }

  /** Every byte is in exactly one place, in order. */
  ghost predicate Balanced(m: Moment) {
    m.accepted == m.traffic.hostGot + m.outbound && m.traffic.hostSent == m.delivered + m.inbound
  }

  /** What `Valid` says of a moment: the books balance end to end; a queued byte has its interrupt armed in the
      driver's word and in the device, unless Write is about to kick; and reception is on unless the ring has
      data or Read is about to turn it on. */
  lemma EndToEnd(u: Uart)
    requires u.Valid()
    ensures Balanced(Now(u))
    ensures u.dev.hostGot <= u.accepted && u.delivered <= u.dev.hostSent
    ensures |u.txQueue| < u.size && |u.rxQueue| < u.size && |u.dev.txFifo| <= u.txDepth
    ensures u.txQueue != [] && !u.kickDue ==> u.irqEnable.we && u.dev.enable.we
    ensures !u.dev.enable.re ==> u.rxQueue != [] || u.rearmDue
  {
    assert Now(u).accepted == Now(u).traffic.hostGot + Now(u).outbound;
  }

  /** `later`, less the part that was there before. */
  ghost function Since(before: seq<Byte>, later: seq<Byte>): seq<Byte>
    requires before <= later
  {
    later[|before|..]
  }

  /** Later histories start with the earlier ones. */
  ghost predicate Later(a: Moment, b: Moment) {
    a.accepted <= b.accepted && a.delivered <= b.delivered && Grew(a.traffic, b.traffic)
  }

  /** Conservation over any stretch of time: what was under way and what was put in since is, in order, what
      came out since and what is under way now. */
  lemma Conservation(a: Moment, b: Moment)
    requires Balanced(a) && Balanced(b) && Later(a, b)
    ensures a.traffic.hostGot <= b.traffic.hostGot && a.traffic.hostSent <= b.traffic.hostSent
    ensures a.outbound + Since(a.accepted, b.accepted) == Since(a.traffic.hostGot, b.traffic.hostGot) + b.outbound
    ensures a.inbound + Since(a.traffic.hostSent, b.traffic.hostSent) == Since(a.delivered, b.delivered) + b.inbound
  {
    GrewIff(a.traffic, b.traffic);
    Shifted(a.traffic.hostGot, a.outbound, Since(a.accepted, b.accepted),
            Since(a.traffic.hostGot, b.traffic.hostGot), b.outbound);
    Shifted(a.delivered, a.inbound, Since(a.traffic.hostSent, b.traffic.hostSent),
            Since(a.delivered, b.delivered), b.inbound);
  }

  lemma Shifted(base: seq<Byte>, x: seq<Byte>, y: seq<Byte>, v: seq<Byte>, w: seq<Byte>)
    requires base + x + y == base + v + w
    ensures x + y == v + w
  {
    assert x + y == (base + x + y)[|base|..];
    assert v + w == (base + v + w)[|base|..];
  }

  // ----- whole runs ---------------------------------------------------------------------------

  datatype MainCall = WriteCall(src: seq<Byte>, nonblock: bool) | ReadCall(space: nat, nonblock: bool)
                    | CloseCall(nonblock: bool) | IoctlCall(req: Request, arg: int)

  /** What the caller gets: the value returned, and the bytes in the buffer of a read. */
  datatype Answer = Answer(result: Call<int>, data: seq<Byte>)

  /** The number of bytes a result of read or write stands for. */
  function Moved(value: int): nat {
    if value > 0 then value else 0
  }

  /** What the answer to a call made at moment `a` promises of the moment `b` it was given at. */
  ghost predicate Kept(u: Uart, call: MainCall, answer: Answer, a: Moment, b: Moment) {
    var value := if answer.result.Returned? then answer.result.value else 0;
    var givenUp := b.Silent() || b.traffic.greeted > a.traffic.greeted;
    && (!call.IoctlCall? ==> b.timeout == a.timeout)
    && match call
       case WriteCall(src, nonblock) =>
         && b.delivered == a.delivered && TookPrefix(a.accepted, b.accepted, src)
         && (answer.result.Returned? ==>
               && Moved(value) <= |src| && b.accepted == a.accepted + src[..Moved(value)]
               && (Moved(value) < |src| ==> |b.accepted| >= |a.traffic.sent| + u.size - 1)
               && (Moved(value) < |src| && !nonblock ==>
                     b.inactive > 0 && (|b.accepted| < |b.traffic.sent| + u.size - 1 || givenUp))
               && (value <= 0 ==> value == if nonblock then -EWOULDBLOCK else -EIO))
       case ReadCall(space, nonblock) =>
         && b.accepted == a.accepted && a.delivered <= b.delivered
         && (answer.result.Returned? ==>
               && |answer.data| == Moved(value) <= space && b.delivered == a.delivered + answer.data
               && Next(answer.data, a.inbound)
               && (Moved(value) < space ==> |b.delivered| >= |a.traffic.arrived|)
               && (value <= 0 && space > 0 && !nonblock ==> b.delivered == b.traffic.arrived && givenUp)
               && (value <= 0 ==> value == if nonblock then -EWOULDBLOCK else -EIO))
       case CloseCall(nonblock) =>
         && b.accepted == a.accepted && b.delivered == a.delivered
         && (answer.result.Returned? ==>
               && (value == 0 || (nonblock && value == -EWOULDBLOCK))
               && (value == 0 ==> b.accepted == b.traffic.sent || (u.alarmRunning && b.Silent()))
               && (value != 0 ==> |b.accepted| > |a.traffic.sent| && !b.Silent()))
       case IoctlCall(req, arg) =>
         && b.accepted == a.accepted && b.delivered == a.delivered
         && (!req.SetTimeout? || a.timeout == INT_MAX ==> b.timeout == a.timeout)
         && (answer.result.Returned? ==>
               && value == (if req.OtherRequest? || a.timeout == INT_MAX then -ENOTTY else 0)
               && (value == 0 && req.SetTimeout? ==>
                     b.timeout == if 2 <= arg < INT_MAX then arg else INT_MAX - 1))
  }

  ghost predicate Step(u: Uart, call: MainCall, answer: Answer, a: Moment, b: Moment) {
    Later(a, b) && Kept(u, call, answer, a, b)
  }

  method PerformRead(u: Uart, space: nat, nonblock: bool) returns (answer: Answer)
    requires u.Valid() && !u.rearmDue
    modifies u, u.rxBuf
    ensures u.Valid() && Step(u, ReadCall(space, nonblock), answer, old(Now(u)), Now(u))
    ensures u.kickDue == old(u.kickDue) && (answer.result.Returned? ==> !u.rearmDue)
  {
    var buffer := new Byte[space];
    var r := u.Read(buffer, space, nonblock);
    answer := Answer(r, if r.Returned? then buffer[..Moved(r.value)] else []);
  }

  /** One call, made when no other is in progress. */
  method Perform(u: Uart, call: MainCall) returns (answer: Answer)
    requires u.Valid() && !u.kickDue && !u.rearmDue
    modifies u, u.txBuf, u.rxBuf
    ensures u.Valid() && Step(u, call, answer, old(Now(u)), Now(u))
    ensures answer.result.Returned? ==> !u.kickDue && !u.rearmDue
  {
    match call {
      case WriteCall(src, nonblock) =>
        var r := u.Write(src, nonblock);
        answer := Answer(r, []);
      case ReadCall(space, nonblock) =>
        answer := PerformRead(u, space, nonblock);
      case CloseCall(nonblock) =>
        var r := u.Close(nonblock);
        answer := Answer(r, []);
      case IoctlCall(req, arg) =>
        var r := u.Ioctl(req, arg);
        answer := Answer(if r.Returned? then Returned(r.value.0) else Running, []);
    }
  }

  /** The bytes that the answer to a call says were written, and read. */
  function WrittenBy(call: MainCall, answer: Answer): seq<Byte> {
    var k := if answer.result.Returned? then Moved(answer.result.value) else 0;
    if call.WriteCall? && k <= |call.src| then call.src[..k] else []
  }

  function ReadBy(call: MainCall, answer: Answer): seq<Byte> {
    if call.ReadCall? then answer.data else []
  }

  /** The same for the calls answered so far. */
  function Written(calls: seq<MainCall>, answers: seq<Answer>): seq<Byte>
    requires |answers| <= |calls|
  {
    if answers == [] then []
    else
      var n := |answers| - 1;
      Written(calls, answers[..n]) + WrittenBy(calls[n], answers[n])
  }

  function ReadOut(calls: seq<MainCall>, answers: seq<Answer>): seq<Byte>
    requires |answers| <= |calls|
  {
    if answers == [] then []
    else
      var n := |answers| - 1;
      ReadOut(calls, answers[..n]) + ReadBy(calls[n], answers[n])
  }

  ghost predicate AllReturned(answers: seq<Answer>) {
    forall i :: 0 <= i < |answers| ==> answers[i].result.Returned?
  }

  /** The first calls were answered as promised, between the moments given, and no call was made while another
      was still running. */
  ghost predicate Traced(u: Uart, calls: seq<MainCall>, answers: seq<Answer>, moments: seq<Moment>) {
    && |answers| <= |calls| && |moments| == |answers| + 1
    && (forall i :: 0 <= i < |answers| ==> Step(u, calls[i], answers[i], moments[i], moments[i + 1]))
    && (forall i :: 0 <= i < |answers| - 1 ==> answers[i].result.Returned?)
  }

  lemma TracedNext(u: Uart, calls: seq<MainCall>, answers: seq<Answer>, moments: seq<Moment>, answer: Answer,
                   now: Moment)
    requires Traced(u, calls, answers, moments) && |answers| < |calls| && AllReturned(answers)
    requires Step(u, calls[|answers|], answer, moments[|answers|], now)
    ensures Traced(u, calls, answers + [answer], moments + [now])
    ensures AllReturned(answers + [answer]) <==> answer.result.Returned?
  {
    var n, as', ms := |answers|, answers + [answer], moments + [now];
    forall i | 0 <= i < n + 1
      ensures Step(u, calls[i], as'[i], ms[i], ms[i + 1])
    {
      if i < n {
        assert Step(u, calls[i], answers[i], moments[i], moments[i + 1]);
      }
    }
    assert as'[n] == answer;
  }

  /** Over a whole run no history is rewritten. */
  lemma {:induction false} TracedLater(u: Uart, calls: seq<MainCall>, answers: seq<Answer>, moments: seq<Moment>,
                                       i: nat)
    requires Traced(u, calls, answers, moments) && i <= |answers|
    ensures Later(moments[0], moments[i])
  {
    if i == 0 {
      GrewIff(moments[0].traffic, moments[0].traffic);
    } else {
      TracedLater(u, calls, answers, moments, i - 1);
      assert Step(u, calls[i - 1], answers[i - 1], moments[i - 1], moments[i]);
      LaterStill(moments[0], moments[i - 1], moments[i]);
    }
  }

  lemma Regrouped(a: seq<Byte>, b: seq<Byte>, c: seq<Byte>)
    ensures a + b + c == a + (b + c)
  {
  }

  /** Between two moments exactly the bytes moved that the answer says. */
  ghost predicate MovedBy(call: MainCall, answer: Answer, a: Moment, b: Moment) {
    b.accepted == a.accepted + WrittenBy(call, answer) && b.delivered == a.delivered + ReadBy(call, answer)
  }

  lemma AllMoved(u: Uart, calls: seq<MainCall>, answers: seq<Answer>, moments: seq<Moment>)
    requires Traced(u, calls, answers, moments) && AllReturned(answers)
    ensures forall i :: 0 <= i < |answers| ==> MovedBy(calls[i], answers[i], moments[i], moments[i + 1])
  {
    forall i | 0 <= i < |answers|
      ensures MovedBy(calls[i], answers[i], moments[i], moments[i + 1])
    {
      assert Step(u, calls[i], answers[i], moments[i], moments[i + 1]);
    }
  }

  /** When all calls of a run have returned, exactly the bytes they say were written were accepted, and exactly
      the bytes they handed out were delivered, in order. */
  lemma {:induction false} Totals(calls: seq<MainCall>, answers: seq<Answer>, moments: seq<Moment>, n: nat)
    requires n <= |answers| <= |calls| && |moments| == |answers| + 1
    requires forall i :: 0 <= i < |answers| ==> MovedBy(calls[i], answers[i], moments[i], moments[i + 1])
    ensures moments[n].accepted == moments[0].accepted + Written(calls, answers[..n])
    ensures moments[n].delivered == moments[0].delivered + ReadOut(calls, answers[..n])
  {
    if n > 0 {
      Totals(calls, answers, moments, n - 1);
      var call, answer, earlier := calls[n - 1], answers[n - 1], answers[..n - 1];
      assert MovedBy(call, answer, moments[n - 1], moments[n]);
      assert answers[..n][..n - 1] == earlier;
      Regrouped(moments[0].accepted, Written(calls, earlier), WrittenBy(call, answer));
      Regrouped(moments[0].delivered, ReadOut(calls, earlier), ReadBy(call, answer));
    }
  }

  /** A whole run: any sequence of main-line calls on a driver, observed up to any point; `moments` are those
      between calls. However the interrupts and the host interleave, the driver is valid at the end and every
      call was answered as promised; no history was rewritten; and when all calls have returned, exactly the
      bytes they say were written were accepted, and exactly the bytes they handed out were delivered, in
      order. */
  method Run(u: Uart, calls: seq<MainCall>) returns (answers: seq<Answer>, ghost moments: seq<Moment>)
    requires u.Valid() && !u.kickDue && !u.rearmDue
    modifies u, u.txBuf, u.rxBuf
    ensures u.Valid() && Balanced(Now(u))
    ensures Traced(u, calls, answers, moments)
    ensures moments[0] == old(Now(u)) && moments[|answers|] == Now(u)
    ensures !AllReturned(answers) <== |answers| < |calls|
    ensures old(u.accepted) <= u.accepted && old(u.delivered) <= u.delivered
    ensures old(u.dev.hostSent) <= u.dev.hostSent && old(u.arrived) <= u.arrived
    ensures old(u.dev.hostGot) <= u.dev.hostGot && old(u.sent) <= u.sent
    ensures AllReturned(answers) ==>
              && u.accepted == old(u.accepted) + Written(calls, answers)
              && u.delivered == old(u.delivered) + ReadOut(calls, answers)
              && (u.txQueue != [] ==> u.dev.enable.we) && (u.dev.enable.re || u.rxQueue != [])
  {
    answers, moments := [], [Now(u)];
    var finished := true;
    for i := 0 to |calls|
      invariant u.Valid() && Traced(u, calls, answers, moments)
      invariant |answers| == i && finished == AllReturned(answers) && (finished ==> !u.kickDue && !u.rearmDue)
      invariant moments[0] == old(Now(u)) && moments[|answers|] == Now(u)
    {
      if !finished { break; }
      var answer := Perform(u, calls[i]);
      TracedNext(u, calls, answers, moments, answer, Now(u));
      answers, moments := answers + [answer], moments + [Now(u)];
      finished := answer.result.Returned?;
    }
    EndToEnd(u);
    TracedLater(u, calls, answers, moments, |answers|);
    if finished {
      AllMoved(u, calls, answers, moments);
      Totals(calls, answers, moments, |answers|);
      assert answers[..|answers|] == answers;
    }
    GrewIff(moments[0].traffic, u.Seen());
  }

  lemma LaterStill(a: Moment, b: Moment, c: Moment)
    requires Later(a, b) && Later(b, c)
    ensures Later(a, c)
  {
    GrewIff(a.traffic, b.traffic);
    GrewIff(b.traffic, c.traffic);
    GrewIff(a.traffic, c.traffic);
  }
}
