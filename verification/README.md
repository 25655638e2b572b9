# Verified models of the HAL and the JTAG UART driver

This project models the board-support software under `software/USB_bsp` and proves properties of it in
Dafny 4.11: the interrupt-driven JTAG UART driver, the alarm scheduler, the file-descriptor table, interrupt
masking and dispatch, the wall clock, the two number printers, and the heap under the profiler. Each source
structure that is updated in place is a class, each loop a loop. `dafny verify dfyconfig.toml` checks
everything.

## What is modelled and what the main results are

**JTAG UART driver** (`Wire.dfy`, `Ring.dfy`, `JtagUart.dfy`). Two rings are shared, without locks, between
main-line code and an interrupt routine plus a one-second alarm. Main-line methods follow the C control flow;
between any two accesses to a shared field they call `Interference`, whose body lets any number of interrupt
routines, alarm callbacks and host actions happen, and host actions also happen between the device accesses of
the interrupt routine itself. `Uart.Valid` holds at every one of these points. It says that

* every accepted byte is, in order and exactly once, with the host, in the device or in the transmit ring, and
  every byte the host sent is with a reader, in the receive ring or in the device (`EndToEnd`);
* a non-empty transmit ring has its interrupt armed in the driver's word and in the device, unless `Write` is
  between its update of `tx_in` and its kick;
* reception is on, or there is something to read, or `Read` is about to turn reception on.

The histories are append-only: every contract below `Read` and `Write` keeps them for an arbitrary earlier moment
`past`, and `Conservation` says what that means over time. `Write`, `Read` and `Close` are proved against them:
what a result k means byte for byte, when it may be short, and what is armed on return. A C loop may spin for
ever, so a run is observed up to an arbitrary point and a call may be `Running` there; `Run` covers every sequence
of calls and ties what was accepted and delivered to what the calls returned. The ring length and the FIFO depth are
arbitrary. Of the device only this is used: reading DATA pops one byte, RVALID = 0 implies RAVAIL = 0, WSPACE is
the free transmit space at the read. RI and WI may be anything; `Pass` says, for each control word the interrupt
routine reads, how many bytes it then moves each way and which request it turns off, and `Isr` keeps that for every
pass.

**Alarm scheduler** (`TickClock.dfy`, `AlarmBook.dfy`, `AlarmWalk.dfy`, `AlarmList.dfy`). Deadlines are 32-bit
words with a rollover flag. `Due` gives their meaning on an unbounded tick count, and an alarm that is on time
fires exactly when promised over any stretch of ticks, however often the counter wraps (`FiringsAsPromised`).
What the n-th callback of an alarm does and answers is an arbitrary function, `Program`. The walk of `alt_tick`
over the intrusive list is verified with callbacks that unlink their own alarm and insert others, or their own
again: every alarm registered at the tick is visited once, in order, the callbacks made are exactly those due,
and the list stays well formed. `AlarmList.Run` shows that the list code takes exactly the steps that
`AlarmWalk.Step` defines, and `FiresAsAsked` draws the conclusion for callers: over any run of starts, stops and
ticks, an alarm started with delay d has its first callback d + 1 ticks later, and each further one as many
ticks later as the one before returned.

**Descriptor table** (`FdFlags.dfy`, `FdModel.dfy`, `FdTable.dfy`). Over every run of open, close, ioctl, fcntl
and redirect no device has two lock holders, although the lock scan skips the high-water mark, and while a lock
is held no descriptor on that device is added. What each call makes of the flag word is stated bit by bit.

**Interrupts** (`DispatchLog.dfy`, `Interrupts.dfy`). Registration, the lowest-line dispatch, and handlers that let
higher-priority lines in to any depth: lines strictly decrease along a nest, the nest is at most 32 deep, unwinding
restores mask and enables. Which lines ask at each read of the pending register is an arbitrary sequence; every
call goes to the handler registered at that moment for the lowest enabled line that asks, and every read that shows
a line leads to exactly one call.

**Clock, printers, heap** (`TimeOfDay.dfy`, `Numerals.dfy`, `Printers.dfy`, `Heap.dfy`). Setting and getting the
time undo each other, with the exact condition on the setter's 32-bit product; the division-based and the
shift-based printers print the same canonical numeral, which reads back, and `Printed` says of a padded number what
the whole text is; sbrk blocks and profiler records never overlap.

## Where the code and its comments disagree

The model follows the code; each point is proved with the exact condition.

* `alt_alarm_start` with the largest request, 2^32-1 ticks, fires on the next tick unless the counter stands just
  before its wrap (`TickClock.StartKeepsPromiseIff`, `TickClock.LargestRequestFiresEarly`).
* An alarm that its own callback stops and starts again is put off by the callback's answer on top of the new
  delay; the sum is honoured exactly under `TickClock.HonouredIff`.
* `alt_fd_lock` says that a lock is granted only when no other descriptor references the device. The scan stops
  one short of the high-water mark, so a lock can be granted with a second descriptor open
  (`FdModel.GrantedIsSoleIff`, `FdModel.LockNotExclusive`).
* `alt_file.h` says that closing a descriptor unlocks its device. The standard three keep their lock
  (`FdModel.CloseUnlocksIff`, `FdModel.StandardLockOutlivesClose`).
* `settimeofday` says that an immediate get returns the time set. Its 32-bit product can spoil that from 71
  minutes after reset on (`TimeOfDay.RoundTripIff`, `TimeOfDay.OverflowSpoilsRoundTrip`).
* A write or read of zero bytes returns an error code, as the code does.

## Model

| member | source | states |
|---|---|---|
| Ring.FullTest | software/USB_bsp/drivers/src/altera_avalon_jtag_uart_init.c:137-139 | the slot after the in index is the out index exactly when the ring holds one byte less than its length |
| Ring.StaleIndexExact | software/USB_bsp/drivers/src/altera_avalon_jtag_uart_write.c:183-184 | a remembered index equals the current one exactly when as many bytes are queued, so never by wrapping round |
| Ring.PushBlock | software/USB_bsp/drivers/src/altera_avalon_jtag_uart_write.c:122-126 | moving the in index over a stored block appends that block to the queue |
| Ring.PopBlock | software/USB_bsp/drivers/src/altera_avalon_jtag_uart_read.c:136-140 | moving the out index over a block removes the oldest bytes, which are that block |
| Ring.FreeSlot | software/USB_bsp/drivers/src/altera_avalon_jtag_uart_write.c:122-122 | the slots being filled hold no queued byte, wherever the consumer has got to |
| JtagUart.FreeRun | software/USB_bsp/drivers/src/altera_avalon_jtag_uart_write.c:109-117 | the three-case space never reaches the unused slot or the end of the buffer, and is zero exactly when the ring was full at the snapshot |
| JtagUart.Uart.HostActs | software/USB_bsp/drivers/inc/altera_avalon_jtag_uart_regs.h:44-71 | the host pushes and drains bytes and raises AC without loss; only the free transmit space can grow |
| Wire.GrewIff | software/USB_bsp/drivers/inc/altera_avalon_jtag_uart.h:90-118 | histories that only grow are, all four, prefixes of what they become |
| JtagUart.Uart.ReadData | software/USB_bsp/drivers/src/altera_avalon_jtag_uart_init.c:144-147 | a valid read takes the oldest byte of the device, an invalid one says that it is empty |
| JtagUart.Uart.ReceiveOne | software/USB_bsp/drivers/src/altera_avalon_jtag_uart_init.c:132-154 | one turn stores exactly the byte popped behind the queue, or stops with the ring full or the device empty |
| JtagUart.Uart.Store | software/USB_bsp/drivers/src/altera_avalon_jtag_uart_init.c:149-154 | the byte popped is queued last; the slot is filled before rx_in moves |
| JtagUart.Uart.IsrReceive | software/USB_bsp/drivers/src/altera_avalon_jtag_uart_init.c:125-167 | takes all that the host had sent unless the ring fills, only appends, and turns RE off exactly when the ring was full at once or filled with the last RAVAIL set |
| JtagUart.Uart.DisarmReceive | software/USB_bsp/drivers/src/altera_avalon_jtag_uart_init.c:156-166 | RE goes off in the driver's word and the device, WE stays |
| JtagUart.Uart.SendOne | software/USB_bsp/drivers/src/altera_avalon_jtag_uart_init.c:176-178 | the oldest queued byte reaches the device once and leaves the ring |
| JtagUart.Uart.IsrTransmit | software/USB_bsp/drivers/src/altera_avalon_jtag_uart_init.c:169-195 | sends exactly the oldest bytes, as many as the smaller of free space and queue, never overfills the device, and turns WE off exactly when space was left over |
| JtagUart.Uart.DisarmTransmit | software/USB_bsp/drivers/src/altera_avalon_jtag_uart_init.c:186-194 | WE goes off only with an empty ring, RE stays |
| JtagUart.Uart.ReadControl | software/USB_bsp/drivers/src/altera_avalon_jtag_uart_init.c:117-123 | the control word read says how much space the transmit FIFO has then; the read changes nothing of the driver |
| JtagUart.Uart.IsrPass | software/USB_bsp/drivers/src/altera_avalon_jtag_uart_init.c:117-196 | one pass does what its control word asks for and nothing else: with WI the smaller of WSPACE and the queue is sent, oldest first, and WE goes off exactly if space is left; with RI the ring fills or all that had been sent arrives, and the condition for RE is exact |
| Wire.PassIs | software/USB_bsp/drivers/src/altera_avalon_jtag_uart_init.c:117-196 | the two halves make up such a pass, seen from its start, although the host acts in between |
| JtagUart.Uart.Isr | software/USB_bsp/drivers/src/altera_avalon_jtag_uart_init.c:108-197 | a pass for each control word read, each of which does what its word asks for, until a word shows neither RI nor WI |
| Wire.PassesNext | software/USB_bsp/drivers/src/altera_avalon_jtag_uart_init.c:108-197 | one more pass continues the series, which is over exactly when its word shows neither |
| JtagUart.Uart.TimeoutAlarm | software/USB_bsp/drivers/src/altera_avalon_jtag_uart_init.c:203-225 | the count goes to zero exactly when an AC raised by the host is acknowledged, which an AC that is up always is, and otherwise advances by one, saturating below both sentinels |
| JtagUart.Uart.Event | software/USB_bsp/drivers/src/altera_avalon_jtag_uart_init.c:108-225 | one interrupt, alarm callback or act of the host keeps Valid and all that had moved, and only an acknowledged AC lowers the inactivity count |
| JtagUart.Uart.Interference | software/USB_bsp/drivers/src/altera_avalon_jtag_uart_init.c:108-225 | any number of such events between two main-line accesses keep Valid and, for every earlier moment, all that had moved by then; bytes waiting to be read stay and are only added to |
| JtagUart.Uart.CopyIn | software/USB_bsp/drivers/src/altera_avalon_jtag_uart_write.c:122-122 | the block is in place after the copy although the interrupt routine ran during it |
| JtagUart.Uart.Publish | software/USB_bsp/drivers/src/altera_avalon_jtag_uart_write.c:123-126 | the block becomes accepted in one store |
| JtagUart.Uart.PutBlock | software/USB_bsp/drivers/src/altera_avalon_jtag_uart_write.c:119-126 | accepted grows by the whole block or not at all |
| JtagUart.Uart.FillOnce | software/USB_bsp/drivers/src/altera_avalon_jtag_uart_write.c:103-127 | takes a prefix, and takes nothing exactly when the tx_out seen is one past tx_in; the value seen is tied to what had been sent then |
| JtagUart.Uart.SnapshotTx | software/USB_bsp/drivers/src/altera_avalon_jtag_uart_write.c:106-107 | the two indices seen measure what is queued; one past the other means full |
| JtagUart.Uart.Fill | software/USB_bsp/drivers/src/altera_avalon_jtag_uart_write.c:102-127 | takes all, or stops with the ring full at the snapshot of tx_out |
| JtagUart.Uart.Kick | software/USB_bsp/drivers/src/altera_avalon_jtag_uart_write.c:136-139 | WE is on in the driver's word and the device when the critical section ends |
| JtagUart.Uart.StartSending | software/USB_bsp/drivers/src/altera_avalon_jtag_uart_write.c:136-139 | interrupts may come before the kick, and WE is on after it |
| JtagUart.Uart.FillAndKick | software/USB_bsp/drivers/src/altera_avalon_jtag_uart_write.c:100-139 | a pass takes at least the room there was at its start, so at least one byte after an observed change of tx_out, and ends armed |
| JtagUart.Uart.StillFull | software/USB_bsp/drivers/src/altera_avalon_jtag_uart_write.c:183-183 | the test on the remembered tx_out is true exactly when no byte was sent since it was read |
| JtagUart.Uart.SpinForSpace | software/USB_bsp/drivers/src/altera_avalon_jtag_uart_write.c:183-184 | the wait ends only when a byte was sent since tx_out was read, or the host is taken for inactive |
| JtagUart.Uart.AwaitSpace | software/USB_bsp/drivers/src/altera_avalon_jtag_uart_write.c:183-190 | the wait ends only when a byte was sent since tx_out was read or the host was taken for inactive; its answer is the test of host_inactive after it |
| JtagUart.Uart.WriteTurn | software/USB_bsp/drivers/src/altera_avalon_jtag_uart_write.c:100-191 | write ends exactly when all is in, or it does not block, or the host was seen inactive; otherwise the next pass has room, unless the host was taken for inactive during the wait |
| JtagUart.Uart.Write | software/USB_bsp/drivers/src/altera_avalon_jtag_uart_write.c:84-215 | a positive k means exactly the first k bytes were accepted and a negative one that none were; a short k uses up the room there was, and when blocking means the host was seen inactive, with room in the ring or after the timeout; on return a non-empty ring is armed |
| JtagUart.Uart.CopyOut | software/USB_bsp/drivers/src/altera_avalon_jtag_uart_read.c:136-136 | the caller gets the oldest bytes although the interrupt routine adds more during the copy |
| JtagUart.Uart.Retire | software/USB_bsp/drivers/src/altera_avalon_jtag_uart_read.c:140-140 | the copied bytes become delivered in one store |
| JtagUart.Uart.TakeBlock | software/USB_bsp/drivers/src/altera_avalon_jtag_uart_read.c:133-140 | delivered grows by the bytes copied, which are the oldest that were queued, or not at all |
| JtagUart.Uart.SnapshotRx | software/USB_bsp/drivers/src/altera_avalon_jtag_uart_read.c:122-128 | the index seen is tied to what had arrived when it was read; the bytes up to it are there to take |
| JtagUart.Uart.DrainOnce | software/USB_bsp/drivers/src/altera_avalon_jtag_uart_read.c:120-142 | takes the next bytes of the stream, and none exactly when the rx_in seen is rx_out |
| JtagUart.Uart.Drain | software/USB_bsp/drivers/src/altera_avalon_jtag_uart_read.c:119-142 | fills the buffer or takes all that had arrived when rx_in was last read |
| JtagUart.Uart.StillEmpty | software/USB_bsp/drivers/src/altera_avalon_jtag_uart_read.c:177-177 | the test on the remembered rx_in is true exactly when no byte arrived since it was read |
| JtagUart.Uart.SpinForData | software/USB_bsp/drivers/src/altera_avalon_jtag_uart_read.c:173-174 | the wait ends only when a byte arrived since rx_in was read, or the host is taken for inactive |
| JtagUart.Uart.AwaitData | software/USB_bsp/drivers/src/altera_avalon_jtag_uart_read.c:173-178 | the wait ends only with data or with the host taken for inactive; the second test: read gives up exactly when no byte has arrived |
| JtagUart.Uart.Rearm | software/USB_bsp/drivers/src/altera_avalon_jtag_uart_read.c:190-194 | RE is on in the driver's word and the device when the critical section ends |
| JtagUart.Uart.ReadTurn | software/USB_bsp/drivers/src/altera_avalon_jtag_uart_read.c:115-179 | read goes on exactly when it took nothing, blocks, and data has come; it gives up only after the timeout |
| JtagUart.Uart.Collect | software/USB_bsp/drivers/src/altera_avalon_jtag_uart_read.c:115-179 | what was taken is the next stretch of the stream |
| JtagUart.Uart.Read | software/USB_bsp/drivers/src/altera_avalon_jtag_uart_read.c:100-203 | a positive k means the next k bytes of the stream, first those waiting in ring and device, are in the buffer, a negative one that none were taken; a short k takes all that had arrived; a blocking read gives up only with the ring empty and after the timeout; reception is on or there is data on return |
| JtagUart.NextBytes | software/USB_bsp/drivers/src/altera_avalon_jtag_uart_read.c:115-142 | what is taken from a stream that only grows starts with what was waiting |
| JtagUart.Uart.Close | software/USB_bsp/drivers/src/altera_avalon_jtag_uart_init.c:241-254 | zero means that all accepted bytes reached the device or the host was taken for inactive at the exit test, without an alarm only the first; -EWOULDBLOCK is the only other result, only without blocking, with bytes still to send at the call and the host not taken for inactive |
| JtagUart.Uart.Ioctl | software/USB_bsp/drivers/src/altera_avalon_jtag_uart_ioctl.c:52-84 | the INT_MAX sentinel is never entered or left, and timeouts are kept between 2 and INT_MAX-1 |
| JtagUart.Uart.constructor | software/USB_bsp/drivers/src/altera_avalon_jtag_uart_init.c:66-100 | after init the driver is Valid with empty rings and reception on |
| JtagUart.EndToEnd | software/USB_bsp/drivers/inc/altera_avalon_jtag_uart.h:90-118 | corollary of Valid: in every state every byte of both streams is in one place and in order, no transmit wakeup is lost and reception is not stuck |
| JtagUart.Conservation | software/USB_bsp/drivers/inc/altera_avalon_jtag_uart.h:90-118 | over any stretch of time, what was under way and what was put in since is, in order, what came out since and what is under way now, in both directions |
| JtagUart.Perform | software/USB_bsp/drivers/src/altera_avalon_jtag_uart_fd.c:50-84 | each call keeps every history and its promise: for write the prefix accepted, for read the bytes handed out and where they come from, for close both results, for ioctl the timeout stored, and for each the conditions for giving up |
| JtagUart.Run | software/USB_bsp/drivers/src/altera_avalon_jtag_uart_fd.c:50-84 | over any sequence of calls observed to any point every call kept its promise and no history was rewritten; when all have returned, exactly the bytes reported written were accepted and exactly those handed out were delivered |
| JtagUart.TracedLater | software/USB_bsp/drivers/src/altera_avalon_jtag_uart_fd.c:50-84 | histories at any point of a run start with those at its beginning |
| JtagUart.Totals | software/USB_bsp/drivers/src/altera_avalon_jtag_uart_fd.c:50-84 | what a run accepted and delivered is the concatenation of what its answers say |
| TickClock.TickExact | software/USB_bsp/HAL/src/alt_tick.c:109-115 | for every deadline, a tick expires it exactly when it is due and otherwise leaves its due tick as it was |
| TickClock.StartFlagIff | software/USB_bsp/HAL/src/alt_alarm_start.c:87-96 | exactly when starting an alarm sets the rollover flag right |
| TickClock.FlagKept | software/USB_bsp/HAL/src/alt_tick.c:109-138 | while the alarm waits, the flag goes on saying whether the deadline lies beyond the next wrap |
| TickClock.FlagRenewed | software/USB_bsp/HAL/src/alt_tick.c:127-138 | a callback leaves the flag saying whether the next deadline lies beyond the next wrap |
| TickClock.RenewedExact | software/USB_bsp/HAL/src/alt_tick.c:127-137 | an alarm that fires on time is next due exactly the period later |
| TickClock.StartExact | software/USB_bsp/HAL/src/alt_alarm_start.c:80-96 | a new alarm is due nticks+1 later exactly when the request is not the largest or the counter is about to wrap |
| TickClock.FiringsAsPromised | software/USB_bsp/HAL/src/alt_tick.c:96-141 | over any stretch of ticks and any answers an alarm on time fires at exactly the promised ticks |
| TickClock.StartKeepsPromiseIff | software/USB_bsp/HAL/src/alt_alarm_start.c:64-112 | exactly which requests are honoured over every stretch of ticks |
| TickClock.LargestRequestFiresEarly | software/USB_bsp/HAL/src/alt_alarm_start.c:82-96 | a request that is not honoured |
| TickClock.HonouredIff | software/USB_bsp/HAL/src/alt_tick.c:117-138 | exactly when an alarm that its own callback started again, and then put off by its answer, is due at the sum |
| TickClock.HalfTurnTwiceFiresEarly | software/USB_bsp/HAL/src/alt_tick.c:117-138 | two requests whose sum is not honoured: the alarm expires on the next tick |
| TickClock.TimelyOnTime | software/USB_bsp/HAL/src/alt_tick.c:117-138 | every request that is due when asked for is on time |
| TickClock.HonouredOnTime | software/USB_bsp/HAL/src/alt_tick.c:117-138 | such an alarm is on time and its rollover flag right |
| TickClock.ScheduleWaits | software/USB_bsp/HAL/src/alt_tick.c:115-115 | while a deadline lies ahead no further callback is promised |
| TickClock.ScheduleFires | software/USB_bsp/HAL/src/alt_tick.c:115-138 | a due callback is the next one promised, and the one after it lies its answer later |
| AlarmBook.LaunchedKept | software/USB_bsp/HAL/src/alt_alarm_start.c:80-98 | a start whose request is timed right begins a promise that is kept |
| AlarmBook.ServedKept | software/USB_bsp/HAL/src/alt_tick.c:100-141 | whatever a tick does to a registered alarm keeps the promise: deadline, flag, and the ticks of all callbacks against what the callbacks answered |
| AlarmWalk.ServedNext | software/USB_bsp/HAL/src/alt_tick.c:100-141 | serving one alarm leaves the others served or as they were; what is started was asked for by a callback, an alarm by its own only if that goes on, and what is asked for is started |
| AlarmWalk.WalkingNext | software/USB_bsp/HAL/src/alt_tick.c:100-141 | a visit keeps the order of the alarms still to visit and of those that stay |
| AlarmWalk.WalkedNext | software/USB_bsp/HAL/src/alt_tick.c:100-141 | one more alarm served brings the walk one place further |
| AlarmWalk.SettledServed | software/USB_bsp/HAL/src/alt_tick.c:109-139 | callback, zero answer or renewal together serve the alarm as its callback wants; it is in front of the list only if its callback started it last and answered more than zero |
| AlarmWalk.TickDone | software/USB_bsp/HAL/src/alt_tick.c:87-148 | for each alarm: registered after the tick if it kept its place or was started; served if it was registered; otherwise changed only by a start |
| AlarmWalk.EndsUnlessAsked | software/USB_bsp/HAL/src/alt_tick.c:117-123 | an alarm whose due callback answers zero, or leaves it stopped, is out of the list after the tick, even if that callback had started it again, unless the callback of another alarm started it |
| AlarmWalk.TickKeeps | software/USB_bsp/HAL/src/alt_tick.c:87-148 | alarm by alarm, whatever the others do: a tick keeps it on time, its flag right and its callbacks at exactly the promised ticks |
| AlarmWalk.StepKeeps | software/USB_bsp/HAL/src/alt_tick.c:66-148 | each operation keeps the promise of each alarm |
| AlarmWalk.TracedKeeps | software/USB_bsp/HAL/src/alt_tick.c:66-148 | over any run every promise is kept |
| AlarmWalk.StaysOnTerms | software/USB_bsp/HAL/src/alt_alarm_start.c:64-112 | an alarm that is started, not stopped and wants to go on stays registered with the delay and start tick of the call |
| AlarmWalk.FiresAsAsked | software/USB_bsp/HAL/src/alt_tick.c:96-141 | over any run, an alarm started with a given delay got its callbacks at exactly delay + 1 ticks after the start and then as many ticks after each callback as that returned |
| AlarmWalk.NoneLost | software/USB_bsp/HAL/src/alt_tick.c:96-141 | over any run, whatever was requested, a registered alarm waits on as it was or gets its due callback, unless the program stops it |
| AlarmList.Alarms.constructor | software/USB_bsp/HAL/inc/sys/alt_llist.h:75-75 | the list starts empty and well formed |
| AlarmList.Alarms.RegisterClock | software/USB_bsp/HAL/inc/sys/alt_alarm.h:93-104 | the first clock to register sets the rate, later ones fail |
| AlarmList.Alarms.Insert | software/USB_bsp/HAL/inc/sys/alt_llist.h:90-98 | the entry becomes the first of a well formed circular list |
| AlarmList.Alarms.Remove | software/USB_bsp/HAL/inc/sys/alt_llist.h:105-117 | the entry leaves a well formed list and points to itself; removing it again changes nothing |
| AlarmList.Alarms.LinkedTwice | software/USB_bsp/HAL/src/alt_alarm_start.c:98-98 | an alarm started while it is registered, at any place, closes a circle that a walk from the head enters at once and never leaves |
| AlarmList.Alarms.Stop | software/USB_bsp/HAL/src/alt_tick.c:66-73 | the alarm is out of the list, the others keep their order and are as they were |
| AlarmList.Alarms.StartAlarm | software/USB_bsp/HAL/src/alt_alarm_start.c:64-112 | the error cases leave everything alone; otherwise the alarm is first in the list, started now with the delay asked for, and no other has changed |
| AlarmList.Alarms.StopOwnAlarm | software/USB_bsp/HAL/src/alt_tick.c:66-73 | a callback stops its own alarm: it leaves the list from its place or from the front |
| AlarmList.Alarms.StartOther | software/USB_bsp/HAL/src/alt_alarm_start.c:64-112 | a callback starts an alarm that is not registered, its own included |
| AlarmList.Alarms.CallbackActions | software/USB_bsp/HAL/src/alt_tick.c:117-117 | the actions of a callback have the effect they should, one after the other, and change nothing else |
| AlarmList.Alarms.Callback | software/USB_bsp/HAL/src/alt_tick.c:117-117 | the n-th callback of an alarm does and answers what the program says for it, an arbitrary function; it is logged |
| AlarmList.Alarms.PutOff | software/USB_bsp/HAL/src/alt_tick.c:127-137 | the deadline moves by the period, the flag is set on overflow |
| AlarmList.Alarms.Fire | software/USB_bsp/HAL/src/alt_tick.c:117-138 | with what the callback answered: zero takes the alarm out wherever it is, any other renews its deadline in its place or puts it off in front |
| AlarmList.Alarms.Expires | software/USB_bsp/HAL/src/alt_tick.c:109-115 | the test on the wrapping counter holds exactly at the due tick |
| AlarmList.Alarms.Serve | software/USB_bsp/HAL/src/alt_tick.c:109-139 | the callback is made exactly when the alarm is due at this tick, and the alarm is left as that callback wants |
| AlarmList.Alarms.Visit | software/USB_bsp/HAL/src/alt_tick.c:102-140 | the walk reaches the next alarm of the list as it was, although callbacks relink it |
| AlarmList.Alarms.Walk | software/USB_bsp/HAL/src/alt_tick.c:100-141 | the walk ends at the head after every alarm once |
| AlarmList.Alarms.Tick | software/USB_bsp/HAL/src/alt_tick.c:87-148 | every alarm registered at the tick is served once, in list order; the callbacks made are exactly those due |
| AlarmList.Alarms.StopAlarm | software/USB_bsp/HAL/src/alt_tick.c:66-73 | exactly the alarm named leaves the list, and nothing else changes |
| AlarmList.Alarms.Register | software/USB_bsp/HAL/src/alt_alarm_start.c:64-112 | exactly the alarm named is started, now and with the delay asked for, and nothing else changes |
| AlarmList.Perform | software/USB_bsp/HAL/src/alt_tick.c:66-148 | each operation of a run leads to the moment it should |
| AlarmList.Run | software/USB_bsp/HAL/src/alt_tick.c:66-148 | any run of clock registrations, starts, stops and ticks is a trace of such steps, so that the theorems on traces hold of the list code |
| FdModel.FirstFree | software/USB_bsp/HAL/src/alt_get_fd.c:77-89 | the slot found is free and every lower one is taken |
| FdModel.FcntlBits | software/USB_bsp/HAL/src/alt_fcntl.c:86-92 | a flag update touches neither the lock nor the device bit |
| FdFlags.FlagsSetIs | software/USB_bsp/HAL/src/alt_fcntl.c:86-92 | after F_SETFL O_APPEND and O_NONBLOCK are those of the argument and every other bit is as before |
| FdModel.FlagsUpdated | software/USB_bsp/HAL/src/alt_fcntl.c:86-92 | the flag update is that one, and target and private field stay |
| FdFlags.ReadsBackIs | software/USB_bsp/HAL/src/alt_fcntl.c:83-92 | what F_GETFL shows after F_SETFL: the two flags as asked, the others as before, the reserved ones never |
| FdModel.FreshBits | software/USB_bsp/HAL/src/alt_open.c:138-151 | a new descriptor is on its target with the private field the driver left, unlocked, and marked exactly if it is a device |
| FdModel.FreshFlags | software/USB_bsp/HAL/src/alt_open.c:139-139 | it has the flags given to open, the reserved bits apart |
| FdModel.LockBitOnly | software/USB_bsp/HAL/src/alt_fd_lock.c:69-69 | granting a lock changes that one bit |
| FdModel.UnlockBitOnly | software/USB_bsp/HAL/src/alt_fd_unlock.c:54-54 | so does giving it up |
| FdModel.OpenKeepsInv | software/USB_bsp/HAL/src/alt_open.c:105-171 | open keeps the table invariant, whatever it finds and the driver answers |
| FdModel.ReleaseKeepsInv | software/USB_bsp/HAL/src/alt_release_fd.c:44-51 | release keeps it |
| FdModel.LockKeepsInv | software/USB_bsp/HAL/src/alt_fd_lock.c:54-75 | the lock keeps it although the scan skips the high-water mark |
| FdModel.UnlockKeepsInv | software/USB_bsp/HAL/src/alt_fd_unlock.c:52-56 | unlock keeps it |
| FdModel.FlagsKeepInv | software/USB_bsp/HAL/src/alt_fcntl.c:86-92 | fcntl keeps it |
| FdModel.RedirectKeepsInv | software/USB_bsp/HAL/src/alt_io_redirect.c:58-72 | redirecting keeps it |
| FdModel.Initial | software/USB_bsp/HAL/src/alt_dev.c:118-149 | the pool at start-up satisfies it |
| FdModel.OneHolder | software/USB_bsp/HAL/src/alt_fd_lock.c:54-75 | over every run of calls no device has two lock holders |
| FdModel.FailedOpenHarmless | software/USB_bsp/HAL/src/alt_open.c:161-166 | a failed open leaves every open descriptor and the target of every slot as they were; only the slot it took loses leftover flags |
| FdModel.OpenSucceedsIff | software/USB_bsp/HAL/src/alt_open.c:105-171 | exactly when open succeeds, and that it takes the lowest free descriptor |
| FdModel.OpenErrors | software/USB_bsp/HAL/src/alt_open.c:105-171 | which error a failed open reports, and where the high-water mark goes |
| FdModel.LockedStep | software/USB_bsp/HAL/src/alt_open.c:64-92 | no call that spares the holder adds a descriptor on its device |
| FdModel.LockedDeviceNeverGrows | software/USB_bsp/HAL/src/alt_open.c:64-92 | over every run that spares the holder, the lock stays and the descriptors on the device never grow |
| FdModel.CloseUnlocksIff | software/USB_bsp/HAL/src/alt_release_fd.c:44-51 | closing the holder unlocks the device exactly when it is not a standard descriptor |
| FdModel.ReleaseIs | software/USB_bsp/HAL/src/alt_release_fd.c:44-51 | close frees the descriptor, unless it is a standard one, and touches no other |
| FdModel.RedirectIs | software/USB_bsp/HAL/src/alt_io_redirect.c:57-73 | a redirect changes that descriptor alone among those open: it becomes what the new one was, whose slot is free again; a failed one changes none |
| FdModel.GrantedIsSoleIff | software/USB_bsp/HAL/src/alt_fd_lock.c:61-69 | exactly when a granted lock is exclusive |
| FdModel.LockNotExclusive | software/USB_bsp/HAL/src/alt_fd_lock.c:61-69 | a run from start-up that ends with a lock that is not |
| FdModel.StandardLockOutlivesClose | software/USB_bsp/HAL/src/alt_close.c:84-88 | a run from start-up in which the lock outlives the close |
| FdTable.Pool.constructor | software/USB_bsp/HAL/src/alt_dev.c:118-149 | start-up gives the initial table |
| FdTable.Pool.GetFd | software/USB_bsp/HAL/src/alt_get_fd.c:54-101 | takes exactly the lowest free slot and raises the mark over it, or fails leaving all alone |
| FdTable.Pool.ReleaseFd | software/USB_bsp/HAL/src/alt_release_fd.c:44-51 | frees the slot unless it is reserved |
| FdTable.Pool.FileLocked | software/USB_bsp/HAL/src/alt_open.c:64-92 | finds a holder on the device exactly when there is one up to the mark |
| FdTable.HolderIffLocked | software/USB_bsp/HAL/src/alt_open.c:79-87 | that scan says whether the device was locked before the slot was taken |
| FdTable.Pool.Admit | software/USB_bsp/HAL/src/alt_open.c:138-143 | the new descriptor carries no lock and is turned away exactly when a device has a holder |
| FdTable.Pool.FillIn | software/USB_bsp/HAL/src/alt_open.c:138-151 | the slot is filled in, and the status is the lock's or the driver's |
| FdTable.Pool.OpenFile | software/USB_bsp/HAL/src/alt_open.c:105-171 | does what the table model says, result and error number included |
| FdTable.Pool.FdLock | software/USB_bsp/HAL/src/alt_fd_lock.c:54-75 | grants the lock exactly when no other descriptor below the mark is on the target |
| FdTable.Pool.Ioctl | software/USB_bsp/HAL/src/alt_ioctl.c:106-168 | lock requests reach the lock only on a descriptor marked as a device; the rest goes to the driver |
| FdTable.Pool.Fcntl | software/USB_bsp/HAL/src/alt_fcntl.c:66-101 | F_GETFL shows all but the reserved bits; F_SETFL sets the two flags as asked and nothing else in the pool; anything else is an error |
| FdTable.Pool.SetThenGetFlags | software/USB_bsp/HAL/src/alt_fcntl.c:83-92 | F_GETFL after F_SETFL shows what was set |
| FdTable.Pool.CloseFile | software/USB_bsp/HAL/src/alt_close.c:64-101 | the slot is released whatever the driver answers |
| FdTable.Pool.OpenOver | software/USB_bsp/HAL/src/alt_io_redirect.c:58-72 | the descriptor becomes a copy of the new one, or stays as it was |
| FdTable.Pool.IoRedirect | software/USB_bsp/HAL/src/alt_io_redirect.c:85-94 | output, input and error are redirected in that order |
| Interrupts.NestDepth | software/USB_bsp/HAL/inc/priv/alt_legacy_irq.h:118-133 | a nest of handlers of strictly higher priority is no deeper than there are lines |
| DispatchLog.LawfulMore | software/USB_bsp/HAL/src/alt_irq_handler.c:130-159 | two stretches in which each read that showed a line led to exactly one call make one such stretch |
| DispatchLog.LawfulCall | software/USB_bsp/HAL/src/alt_irq_handler.c:143-150 | a call and all the calls nested in it make one, too |
| Interrupts.Cpu.Critical | software/USB_bsp/HAL/inc/sys/alt_irq.h:113-159 | critical sections nested to any depth restore the interrupt enable |
| Interrupts.Cpu.Register | software/USB_bsp/HAL/src/alt_iic_isr_register.c:75-101 | a line is enabled exactly when it gets a handler, a bad line changes nothing, and masking survives exactly when the mask lets all enabled lines through |
| Interrupts.Cpu.Interruptible | software/USB_bsp/HAL/inc/priv/alt_legacy_irq.h:118-133 | only active lines below the priority are exposed |
| Interrupts.Cpu.NonInterruptible | software/USB_bsp/HAL/inc/priv/alt_legacy_irq.h:139-149 | the mask before is back, with the enables it gives |
| Interrupts.Cpu.LowestPending | software/USB_bsp/HAL/src/alt_irq_handler.c:132-155 | the scan ends and finds the lowest pending line |
| Interrupts.Cpu.LookUp | software/USB_bsp/HAL/src/alt_irq_handler.c:128-150 | in every round the line served is the lowest enabled one that asks, and its handler is the one in the table |
| Interrupts.Cpu.RunHandler | software/USB_bsp/HAL/src/alt_irq_handler.c:143-150 | a handler is logged, and whatever it lets in leaves mask, enables, table and nest as they were and calls lawfully, only lines below its own |
| Interrupts.Cpu.LetIn | software/USB_bsp/HAL/inc/priv/alt_legacy_irq.h:118-149 | between alt_irq_interruptible and its match any interrupts come, on lower lines only; then all is restored |
| Interrupts.Cpu.TakeInterrupt | software/USB_bsp/HAL/src/alt_irq_handler.c:80-167 | an interrupt leaves all settings as they were and makes lawful calls: none if no exposed line asks, else the first at once, and one for each further read that shows a line, until one shows none |
| Interrupts.Cpu.Dispatch | software/USB_bsp/HAL/src/alt_irq_handler.c:128-159 | every read that shows a line, not only the first, leads to exactly one call, of the handler registered for the lowest line that was enabled and asking at that read; it ends only when a read shows none |
| Interrupts.Cpu.Rounds | software/USB_bsp/HAL/src/alt_irq_handler.c:130-159 | the further rounds end only with a read that shows no line, and no read that shows one goes unanswered |
| Interrupts.Cpu.Round | software/USB_bsp/HAL/src/alt_irq_handler.c:130-157 | one read, one lawful call, one more read |
| Interrupts.Cpu.Run | software/USB_bsp/HAL/src/alt_iic_isr_register.c:82-98 | over any registrations, critical sections and interrupts each step does what it should; every call goes to the handler registered then for the lowest line that asks, and every read that shows a line leads to one; every exposed line has a handler and interrupts stay on |
| TimeOfDay.Clock.SetTimeOfDay | software/USB_bsp/HAL/src/alt_settod.c:72-96 | stores the base time that the tick count implies, with the wrap-around of its microseconds, or fails without a clock |
| TimeOfDay.Clock.Normalise | software/USB_bsp/HAL/src/alt_gettod.c:95-112 | both loops end and keep the total, or give the epoch for a negative one |
| TimeOfDay.Clock.GetTimeOfDay | software/USB_bsp/HAL/src/alt_gettod.c:71-124 | base time plus ticks, normalised, or an error without a clock |
| TimeOfDay.GetterExact | software/USB_bsp/HAL/src/alt_gettod.c:91-93 | when the rate divides a million, seconds and microseconds add up to the ticks exactly |
| TimeOfDay.SetterExactIff | software/USB_bsp/HAL/src/alt_settod.c:83-84 | the 32-bit product gives the right microseconds exactly when the part it loses is a multiple of 5^6 times 2^32 |
| TimeOfDay.RoundTripIff | software/USB_bsp/HAL/src/alt_settod.c:61-70 | a get after a set finds the time set plus the ticks since exactly under that condition, or, when the getter clamps, exactly at the epoch |
| TimeOfDay.HarmlessBelowWrap | software/USB_bsp/HAL/src/alt_settod.c:84-84 | the condition holds below 2^32 microseconds |
| TimeOfDay.OverflowSpoilsRoundTrip | software/USB_bsp/HAL/src/alt_settod.c:84-84 | a tick count at which it fails |
| TimeOfDay.SetThenGet | software/USB_bsp/HAL/src/alt_settod.c:72-96 | the two calls with ticks in between give the expected time exactly then |
| Numerals.TextReadsBack | software/USB_bsp/HAL/src/alt_log_printf.c:281-297 | the reference numeral reads back and has no superfluous zero |
| Numerals.CanonicalUnique | software/USB_bsp/HAL/src/alt_log_printf.c:281-297 | there is only one such numeral |
| Numerals.TextInCase | software/USB_bsp/HAL/src/alt_log_printf.c:286-291 | no letter of the other case is in a numeral |
| Numerals.SplitTop | software/USB_bsp/HAL/src/alt_log_printf.c:286-295 | dividing by the top place value splits off the top digit |
| Numerals.DropLow | software/USB_bsp/HAL/src/alt_printf.c:106-106 | dividing by a place value drops the digits below it |
| Printers.RepChar | software/USB_bsp/HAL/src/alt_log_printf.c:106-110 | prints the character as often as asked, not at all for a negative count |
| Printers.CountDigits | software/USB_bsp/HAL/src/alt_log_printf.c:247-255 | the count and the largest place value, which stays within a word |
| Printers.StripSign | software/USB_bsp/HAL/src/alt_log_printf.c:238-245 | sign and magnitude of every word, -2^31 included |
| Printers.Lead | software/USB_bsp/HAL/src/alt_log_printf.c:257-279 | zeros go after the sign, blanks before it |
| Printers.DigitChar | software/USB_bsp/HAL/src/alt_log_printf.c:286-291 | the character of a digit in either case |
| Printers.TopDigit | software/USB_bsp/HAL/src/alt_log_printf.c:284-295 | one turn prints the top digit and leaves the others |
| Printers.PrintDigits | software/USB_bsp/HAL/src/alt_log_printf.c:281-297 | the division loop prints the numeral |
| Printers.PrintInteger | software/USB_bsp/HAL/src/alt_log_printf.c:206-297 | the text reads back as the number and fills the width; with zeros it is digits after the minus, if any; with blanks nothing else precedes the sign and the shortest numeral; it is in the case asked for and has no padding beyond the width |
| Printers.LayoutPrinted | software/USB_bsp/HAL/src/alt_log_printf.c:257-297 | numeral, sign and padding, laid out as the code does, are such a text |
| Printers.PrintedReadsBack | software/USB_bsp/HAL/src/alt_log_printf.c:206-297 | what is printed reads back as the number meant and fills the width unless it needs more |
| Printers.BitsAreDigit | software/USB_bsp/HAL/src/alt_printf.c:99-106 | masking and shifting gives the hexadecimal digit at that place |
| Printers.FirstShift | software/USB_bsp/HAL/src/alt_printf.c:98-101 | the search for a non-zero digit ends at the top digit |
| Printers.PrintShifted | software/USB_bsp/HAL/src/alt_printf.c:103-112 | the shifting loop spells the digits from the top |
| Printers.PrintHex | software/USB_bsp/HAL/src/alt_printf.c:84-113 | %x prints the numeral of every word, in lower case |
| Printers.PrintHexBothWays | software/USB_bsp/HAL/src/alt_printf.c:84-113 | the two printers give the same canonical text, which reads back |
| Heap.Allocator.Sbrk | software/USB_bsp/HAL/src/alt_sbrk.c:68-136 | fails exactly when the increment does not fit, else gives the aligned end past all earlier blocks; a decrement keeps the heap in order exactly when it uncovers nothing handed out |
| Heap.Allocator.Allocate | software/USB_bsp/HAL/src/alt_sbrk.c:68-136 | application blocks stay apart from each other and from the profiler's slabs |
| Heap.Allocator.EnsureSlab | software/USB_bsp/HAL/src/alt_gmon.c:137-141 | a new slab is taken exactly if the last one is too small; afterwards there is room, unless sbrk failed, which is exactly when a slab was needed and did not fit |
| Heap.Allocator.CutOff | software/USB_bsp/HAL/src/alt_gmon.c:143-146 | the record is the front of what is left of the slab, and exactly the rest stays |
| Heap.Allocator.Carve | software/USB_bsp/HAL/src/alt_gmon.c:133-148 | the record starts where the last one ended as long as the slab has room, else at a new slab; it lies in one slab apart from all others, unless sbrk failed, which is exactly when a slab was needed and did not fit; then the caller gets -1 |
| Heap.Allocator.NewRecordApart | software/USB_bsp/HAL/src/alt_gmon.c:143-145 | the front of what is left of a slab overlaps no record |
| Heap.Allocator.RecordsApartFromBlocks | software/USB_bsp/HAL/src/alt_gmon.c:133-148 | no record overlaps an application block |

## Left out

- Negative counts passed to read and write: the code treats them like zero, and so are they here.
- The RI and WI bits: they may be anything at each read, so the interrupt routine is not shown to end, and blocking calls are not shown to return; a run is observed up to any finite point instead.
- The control word of the UART is its RE, WE and AC bits and the WSPACE field; 32-bit interrupt words are sets of line numbers, and `v & (0xF << s)` in the hexadecimal printer is quotient and remainder, so bit patterns as such are not captured there.
- The small UART driver, the variants for an operating system and the option to ignore a full FIFO: not selected in this configuration; semaphores and event flags compile to nothing.
- AlarmList.Alarms.Callback: does not model a callback that stops another alarm than its own; the code's saved `next` would then be stale and the walk would not end.
- AlarmList.Alarms.StartAlarm: does not model starting an alarm that is still registered, which the code does not check and which breaks the list (AlarmList.Alarms.LinkedTwice).
- Driver callbacks of the descriptor table: represented by the status they return and the private field they leave; descriptor numbers are valid, and open where the code follows the device pointer.
- FdTable.Pool.Fcntl: the value of F_GETFL is a second result instead of sharing one integer with the error code.
- Interrupts.Cpu.Register: takes line numbers below 2^31; the code converts larger ones to negative indices.
- Interrupts.Cpu.Dispatch: the lines that ask at each read are an arbitrary sequence that ends; a line that asks for ever keeps the code in its loop.
- Interrupts.Cpu.RunHandler: does not model a nested handler that enables, disables or registers lines, or passes another priority than its own.
- TimeOfDay.Clock.SetTimeOfDay: does not model wrap-around of the seconds.
- The format-string state machine of both printers: only the integer and %x directives are modelled, from their parsed parameters.
- Heap.Allocator.Sbrk: does not model wrap-around of addresses or the stack check.
- Heap.Allocator.Allocate: takes increments that are not negative; giving memory back is modelled in Sbrk only.
- Heap.Allocator.Carve: takes requests of 1 to 1020 bytes, as the profiler makes, and promises nothing more once sbrk has failed, because the code then carves from address -1.
- The lists of profiling records, the histogram, device name lookup, and all other system calls: not part of this model.
