/** The JTAG UART device as the driver sees it, with the host at the other end. */
module Wire {

  type Byte = x: int | 0 <= x < 256

  /** The RE and WE bits of the control word. */
  datatype Enable = Enable(re: bool, we: bool)

  /** The device registers and FIFOs, what the host has pushed into it and drained from it, and how often it has
      raised AC. `ravail` is the RAVAIL bit of the last word read from DATA. */
  datatype Device = Device(enable: Enable, ac: bool, ravail: bool, rxFifo: seq<Byte>, txFifo: seq<Byte>,
                           hostSent: seq<Byte>, hostGot: seq<Byte>, raised: nat)

  /** The device loses, duplicates and reorders nothing: `arrived` is what was popped from it and `sent`
      what was written to it. */
  ghost predicate Lossless(dev: Device, arrived: seq<Byte>, sent: seq<Byte>) {
    dev.hostSent == arrived + dev.rxFifo && sent == dev.hostGot + dev.txFifo
  }

  datatype Line = Arrived | Sent | HostSent | HostGot

  /** What the interrupt routine and the host have moved so far, and how often the alarm has seen the host. */
  datatype Traffic = Traffic(arrived: seq<Byte>, sent: seq<Byte>, hostSent: seq<Byte>, hostGot: seq<Byte>,
                             greeted: nat)
  {
    ghost function On(line: Line): seq<Byte> {
      match line
      case Arrived => arrived
      case Sent => sent
      case HostSent => hostSent
      case HostGot => hostGot
    }
  }

  /** From one moment to a later one every history keeps what it had and only grows at its end. */
  ghost predicate Grew(before: Traffic, now: Traffic) {
    before.greeted <= now.greeted && forall line: Line :: before.On(line) <= now.On(line)
  }

  lemma GrewIff(before: Traffic, now: Traffic)
    ensures Grew(before, now) <==>
      && before.arrived <= now.arrived && before.sent <= now.sent
      && before.hostSent <= now.hostSent && before.hostGot <= now.hostGot && before.greeted <= now.greeted
  {
    if && before.arrived <= now.arrived && before.sent <= now.sent
       && before.hostSent <= now.hostSent && before.hostGot <= now.hostGot && before.greeted <= now.greeted
    {
      forall line: Line
        ensures before.On(line) <= now.On(line)
      {
        match line
        case Arrived =>
        case Sent =>
        case HostSent =>
        case HostGot =>
      }
    }
    assert Grew(before, now) ==>
        before.On(Arrived) <= now.On(Arrived) && before.On(Sent) <= now.On(Sent)
        && before.On(HostSent) <= now.On(HostSent) && before.On(HostGot) <= now.On(HostGot);
  }

  lemma GreetedMore(before: Traffic, now: Traffic, greeted: nat)
    requires Grew(before, now) && now.greeted <= greeted
    ensures Grew(before, now.(greeted := greeted))
  {
    GrewIff(before, now);
    GrewIff(before, now.(greeted := greeted));
  }

  lemma SentMore(before: Traffic, now: Traffic, b: Byte)
    requires Grew(before, now)
    ensures Grew(before, now.(sent := now.sent + [b]))
  {
    GrewIff(before, now);
    GrewIff(before, now.(sent := now.sent + [b]));
  }

  lemma ArrivedMore(before: Traffic, now: Traffic, b: Byte)
    requires Grew(before, now)
    ensures Grew(before, now.(arrived := now.arrived + [b]))
  {
    GrewIff(before, now);
    GrewIff(before, now.(arrived := now.arrived + [b]));
  }

  // ----- what the interrupt routine does -------------------------------------------------------

  /** What a read of the control word shows the interrupt routine. */
  datatype Control = Control(ri: bool, wi: bool, wspace: nat)

  /** The driver and the device at one moment, as far as the interrupt routine is concerned; `space` is the free
      space in the device's transmit FIFO. */
  datatype Glance = Glance(traffic: Traffic, txQueue: seq<Byte>, rxQueue: seq<Byte>, enable: Enable, ravail: bool,
                           space: nat)

  function Min(a: nat, b: nat): (m: nat)
    ensures m <= a && m <= b && (m == a || m == b)
  {
    if a < b then a else b
  }

  /** The receive half, with rings of length `size`: bytes are moved until the ring is full or all that had been
      sent has arrived; reception goes off exactly when the ring was full at once or the last word read said that
      there is more. */
  ghost predicate Received(size: nat, a: Glance, b: Glance) {
    var off := |a.rxQueue| == size - 1 || b.ravail;
    && a.rxQueue <= b.rxQueue && (|b.rxQueue| == size - 1 || a.traffic.hostSent <= b.traffic.arrived)
    && (off ==> |b.rxQueue| == size - 1)
    && b.enable == (if off then a.enable.(re := false) else a.enable)
    && b.txQueue == a.txQueue && b.traffic.sent == a.traffic.sent && b.space >= a.space
  }

  /** The transmit half: as many of the oldest bytes as there was space for are sent, and the transmit interrupt
      goes off exactly when space was left over. */
  ghost predicate Transmitted(wspace: nat, a: Glance, b: Glance) {
    var n := Min(wspace, |a.txQueue|);
    && b.traffic.sent == a.traffic.sent + a.txQueue[..n] && b.txQueue == a.txQueue[n..]
    && b.enable == (if wspace > |a.txQueue| then a.enable.(we := false) else a.enable)
    && b.rxQueue == a.rxQueue && b.traffic.arrived == a.traffic.arrived && b.ravail == a.ravail
  }

  /** A half that the control word does not ask for is not done. */
  ghost predicate Idle(a: Glance, b: Glance) {
    && b.txQueue == a.txQueue && b.rxQueue == a.rxQueue && b.enable == a.enable && b.ravail == a.ravail
    && b.traffic.sent == a.traffic.sent && b.traffic.arrived == a.traffic.arrived && b.space >= a.space
  }

  /** One pass from `a` to `d`, by way of the read of the control word at `b` and the receive half up to `c`. */
  ghost predicate PassBy(size: nat, w: Control, a: Glance, b: Glance, c: Glance, d: Glance) {
    && Idle(a, b) && w.wspace == b.space
    && (if w.ri then Received(size, b, c) else Idle(b, c))
    && (if w.wi then Transmitted(w.wspace, c, d) else Idle(c, d))
  }

  /** One pass of the interrupt routine, when the control word was `w`: if WI was set, exactly the smaller of WSPACE
      and the queue was sent, oldest first, and WE went off exactly if space was left over; if RI was set, the
      ring is full or all that had been sent has arrived, and RE went off exactly if the ring was full at once or
      more was announced. What was not asked for was not done. */
  ghost predicate Pass(size: nat, w: Control, a: Glance, d: Glance) {
    var n := if w.wi then Min(w.wspace, |a.txQueue|) else 0;
    var off := w.ri && (|a.rxQueue| == size - 1 || d.ravail);
    && w.wspace >= a.space
    && d.traffic.sent == a.traffic.sent + a.txQueue[..n] && d.txQueue == a.txQueue[n..]
    && d.enable.we == (a.enable.we && !(w.wi && w.wspace > |a.txQueue|))
    && a.rxQueue <= d.rxQueue && (!w.ri ==> d.rxQueue == a.rxQueue && d.traffic.arrived == a.traffic.arrived)
    && (w.ri ==> |d.rxQueue| == size - 1 || a.traffic.hostSent <= d.traffic.arrived)
    && d.enable.re == (a.enable.re && !off) && (off ==> |d.rxQueue| == size - 1)
  }

  lemma PassIs(size: nat, w: Control, a: Glance, b: Glance, c: Glance, d: Glance)
    requires PassBy(size, w, a, b, c, d) && a.traffic.hostSent <= b.traffic.hostSent
    ensures Pass(size, w, a, d)
  {
    assert a.txQueue[..0] == [] && a.traffic.sent + [] == a.traffic.sent;
  }

  /** A run of the interrupt routine: a pass for each control word read, until one shows neither RI nor WI. */
  ghost predicate Passes(size: nat, words: seq<Control>, glances: seq<Glance>, done: bool) {
    && |glances| == |words| + 1
    && (forall i :: 0 <= i < |words| ==> Pass(size, words[i], glances[i], glances[i + 1]))
    && (forall i :: 0 <= i < |words| && (i < |words| - 1 || !done) ==> words[i].ri || words[i].wi)
    && (done ==> words != [] && !words[|words| - 1].ri && !words[|words| - 1].wi)
  }

  lemma PassesNext(size: nat, words: seq<Control>, glances: seq<Glance>, w: Control, now: Glance)
    requires Passes(size, words, glances, false) && Pass(size, w, glances[|words|], now)
    ensures Passes(size, words + [w], glances + [now], !w.ri && !w.wi)
  {
    var ws, gs := words + [w], glances + [now];
    forall i | 0 <= i < |ws|
      ensures Pass(size, ws[i], gs[i], gs[i + 1])
    {
      if i < |words| {
        assert Pass(size, words[i], glances[i], glances[i + 1]);
      }
    }
  }

  /** Of a fixed stream, what was sent and what is queued change places. */
  lemma SentOff(sent: seq<Byte>, queue: seq<Byte>, sent': seq<Byte>, queue': seq<Byte>, n: nat)
    requires sent + queue == sent' + queue' && n <= |queue| && |sent'| == |sent| + n
    ensures sent' == sent + queue[..n] && queue' == queue[n..]
  {
    var all := sent + queue;
    assert sent' == all[..|sent| + n] && queue' == all[|sent| + n..];
  }
}
